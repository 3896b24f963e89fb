/** What every reachable state of the server satisfies. */
module ServerSafety {
  import opened Bytes
  import opened WalScan
  import opened Mutation
  import opened Options
  import opened Sequences
  import opened Server
  import G = GroupCommit
  import D = Durability

  // ------------------------------------------------------------ one worker's share

  function Mine(ds: seq<Done>, w: nat): seq<Done>
  {
    if ds == [] then [] else
      var n := |ds| - 1;
      Mine(ds[..n], w) + if ds[n].req.worker == w then [ds[n]] else []
  }

  function MineReqs(rs: seq<Req>, w: nat): seq<Req>
  {
    if rs == [] then [] else
      var n := |rs| - 1;
      MineReqs(rs[..n], w) + if rs[n].worker == w then [rs[n]] else []
  }

  lemma MineAppend(ds: seq<Done>, d: Done, w: nat)
    ensures Mine(ds + [d], w) == Mine(ds, w) + if d.req.worker == w then [d] else []
  {
    assert (ds + [d])[..|ds|] == ds;
  }

  lemma MineReqsAppend(rs: seq<Req>, r: Req, w: nat)
    ensures MineReqs(rs + [r], w) == MineReqs(rs, w) + if r.worker == w then [r] else []
  {
    assert (rs + [r])[..|rs|] == rs;
  }

  lemma {:induction false} MineReqsConcat(rs: seq<Req>, qs: seq<Req>, w: nat)
    ensures MineReqs(rs + qs, w) == MineReqs(rs, w) + MineReqs(qs, w)
    decreases |qs|
  {
    if qs == [] {
      assert rs + qs == rs;
    } else {
      var n := |qs| - 1;
      assert rs + qs == (rs + qs[..n]) + [qs[n]];
      MineReqsAppend(rs + qs[..n], qs[n], w);
      MineReqsConcat(rs, qs[..n], w);
    }
  }

  lemma {:induction false} MineReqsOfDone(ds: seq<Done>, w: nat)
    ensures MineReqs(G.Reqs(ds), w) == G.Reqs(Mine(ds, w))
  {
    if ds != [] {
      var n := |ds| - 1;
      MineReqsOfDone(ds[..n], w);
      assert G.Reqs(ds) == G.Reqs(ds[..n]) + [ds[n].req];
      MineReqsAppend(G.Reqs(ds[..n]), ds[n].req, w);
      ReqsAppend(Mine(ds[..n], w), ds[n]);
    }
  }

  lemma ReqsAppend(ds: seq<Done>, d: Done)
    ensures G.Reqs(ds + [d]) == G.Reqs(ds) + [d.req]
  {
  }

  lemma ReqsConcat(ds: seq<Done>, es: seq<Done>)
    ensures G.Reqs(ds + es) == G.Reqs(ds) + G.Reqs(es)
  {
  }

  // ------------------------------------------------------------ the invariant

  /** Order: what a worker has handled, has detached and finds on its stack, put back in order, is
      exactly the completions of its own requests in the order the log completed them. */
  ghost predicate InOrder(s: State, w: nat)
    requires w < |s.workers|
  {
    var k := s.workers[w];
    k.applied + k.detached + Rev(k.stack) == Mine(s.log.completed, w)
  }

  /** The requests of a worker that it has submitted and not handled yet, oldest first. */
  function InFlight(s: State, w: nat): seq<Req>
    requires w < |s.workers|
  {
    var k := s.workers[w];
    G.Reqs(k.detached) + G.Reqs(Rev(k.stack)) + MineReqs(s.log.batch, w) + MineReqs(s.log.queue, w)
  }

  /** Lifetime: every request in flight belongs to a live connection that is waiting for it, no
      two to the same one, every waiting connection has one, and the count is right. */
  ghost predicate Alive(flight: seq<Req>, conns: map<nat, Conn>, count: nat)
  {
    && (forall i :: 0 <= i < |flight| ==>
         flight[i].conn in conns && conns[flight[i].conn].pending == Some(flight[i]))
    && (forall i, j :: 0 <= i < j < |flight| ==> flight[i].conn != flight[j].conn)
    && (forall c :: c in conns && conns[c].pending.Some? ==>
         conns[c].pending.value.conn == c && conns[c].pending.value in flight)
    && count == |flight|
  }

  /** Wakeups: completions on the stack are announced, or about to be announced, or about to be
      detached; and a set flag means an announcement the worker has not consumed. */
  ghost predicate Announced(s: State, w: nat)
    requires w < |s.workers|
  {
    var k := s.workers[w];
    && (k.stack != [] ==>
         k.eventfd || s.signal == Pushed(w) || s.signal == MustRing(w) || k.at.Drained? || k.at.Cleared?)
    && (k.flag ==> k.eventfd || s.signal == MustRing(w) || k.at.Drained?)
  }

  ghost predicate WorkerInv(s: State, w: nat)
    requires w < |s.workers|
  {
    var k := s.workers[w];
    && InOrder(s, w)
    && Alive(InFlight(s, w), k.conns, k.pendingCount)
    && Announced(s, w)
    && (k.at.Processing? <==> k.detached != [])
    && (k.exited ==> k.draining && k.pendingCount == 0 && k.at.Polling?)
  }

  ghost predicate Inv(s: State)
  {
    && D.Inv(s.log)
    && (s.log.mode.Running? ==>
         && (forall i :: 0 <= i < |s.log.accepted| ==> s.log.accepted[i].worker < |s.workers|)
         && (forall w :: 0 <= w < |s.workers| ==> WorkerInv(s, w))
         && TableInv(s)
         && EffectsInv(s))
  }

  function Oks(ds: seq<Done>): seq<Done>
  {
    if ds == [] then [] else
      var n := |ds| - 1;
      Oks(ds[..n]) + if ds[n].ok then [ds[n]] else []
  }

  /** The table is the replay of what was recovered and of the mutations that reached it, and
      while memory lasts those are, worker by worker, the durable mutations handled, in order. */
  ghost predicate EffectsInv(s: State)
  {
    && s.log.base <= |s.log.history|
    && s.table == Replay(map[], s.log.history[..s.log.base] + G.Records(s.effects))
    && (s.tableOk ==> forall w :: 0 <= w < |s.workers| ==>
         MineReqs(s.effects, w) == G.Reqs(Oks(s.workers[w].applied)))
  }

  /** How much of the history the table of a one-worker server shows: everything recovered, and
      the durable mutations handled since. */
  function Shown(s: State): nat
    requires |s.workers| == 1
  {
    var n := s.log.base + |s.workers[0].applied|;
    if n <= s.log.acked then n else if s.log.acked < s.log.base then s.log.base else s.log.acked
  }

  ghost predicate TableInv(s: State)
  {
    |s.workers| == 1 && s.tableOk ==>
      Shown(s) <= |s.log.history| && s.table == Replay(map[], s.log.history[..Shown(s)])
  }

  // ------------------------------------------------------------ steps that leave a worker alone

  /** A worker keeps its invariant when its own record and its share of the log are untouched
      and no signal meant for it is lost. */
  lemma Untouched(s: State, t: State, w: nat)
    requires w < |s.workers| == |t.workers| && WorkerInv(s, w)
    requires t.workers[w] == s.workers[w]
    requires Mine(t.log.completed, w) == Mine(s.log.completed, w)
    requires InFlight(t, w) == InFlight(s, w)
    requires t.signal == s.signal || (s.signal != Pushed(w) && s.signal != MustRing(w))
    ensures WorkerInv(t, w)
  {
    hide Mine, InFlight, Alive, Rev;
  }

  lemma InFlightSame(s: State, t: State, w: nat)
    requires w < |s.workers| == |t.workers|
    requires t.workers[w].detached == s.workers[w].detached && t.workers[w].stack == s.workers[w].stack
    requires t.log.batch == s.log.batch && t.log.queue == s.log.queue
    ensures InFlight(t, w) == InFlight(s, w)
  {
  }

  // ------------------------------------------------------------ the log writer's steps

  lemma {:induction false} MineReqsSplit(rs: seq<Req>, n: nat, w: nat)
    requires n <= |rs|
    ensures MineReqs(rs[..n], w) + MineReqs(rs[n..], w) == MineReqs(rs, w)
  {
    assert rs == rs[..n] + rs[n..];
    MineReqsConcat(rs[..n], rs[n..], w);
  }

  lemma MineReqsNone(w: nat)
    ensures MineReqs([], w) == []
  {
  }

  lemma {:induction false} TakeFlight(l: G.Log, w: nat)
    requires D.Inv(l) && l.mode.Running? && l.pc.Idle? && l.queue != []
    ensures var m := G.DoTake(l);
            MineReqs(m.batch, w) + MineReqs(m.queue, w) == MineReqs(l.batch, w) + MineReqs(l.queue, w)
  {
    hide D.Inv, G.DoTake, MineReqs;
    D.IdleHasNoBatch(l);
    D.TakeSplits(l);
    MineReqsNone(w);
    MineReqsSplit(l.queue, |G.DoTake(l).batch|, w);
  }

  lemma WriterStepFrame(l: G.Log, step: G.Action, w: nat)
    requires D.Inv(l) && l.mode.Running? && (WriterStep(step) || step.Stop?)
    ensures var m := G.Next(l, step);
            && m.mode.Running? && m.completed == l.completed && m.accepted == l.accepted
            && m.history == l.history && m.base == l.base && m.acked == l.acked
            && MineReqs(m.batch, w) + MineReqs(m.queue, w) == MineReqs(l.batch, w) + MineReqs(l.queue, w)
  {
    hide D.Inv, MineReqs, ScanFrom, EncodeAll;
    if step.Take? && l.pc.Idle? && l.queue != [] {
      TakeFlight(l, w);
    }
  }

  lemma WriterKeeps(s: State, step: G.Action)
    requires Inv(s) && (WriterStep(step) || step.Stop?)
    ensures Inv(s.(log := G.Next(s.log, step)))
  {
    hide D.Inv, G.Next, MineReqs, Mine, Alive, Rev, Replay;
    var t := s.(log := G.Next(s.log, step));
    D.NextKeeps(s.log, step);
    if s.log.mode.Running? {
      forall w | 0 <= w < |s.workers|
        ensures WorkerInv(t, w)
      {
        WriterStepFrame(s.log, step, w);
        var k := s.workers[w];
        FlightSplit(s, t, w);
        Untouched(s, t, w);
      }
      WriterStepFrame(s.log, step, 0);
    } else {
      NotRunningStays(s.log, step);
    }
  }

  lemma FlightSplit(s: State, t: State, w: nat)
    requires w < |s.workers| == |t.workers|
    requires t.workers[w].detached == s.workers[w].detached && t.workers[w].stack == s.workers[w].stack
    requires MineReqs(t.log.batch, w) + MineReqs(t.log.queue, w) == MineReqs(s.log.batch, w) + MineReqs(s.log.queue, w)
    ensures InFlight(t, w) == InFlight(s, w)
  {
    hide MineReqs, Rev;
    var k := s.workers[w];
    var head := G.Reqs(k.detached) + G.Reqs(Rev(k.stack));
    assert InFlight(s, w) == head + (MineReqs(s.log.batch, w) + MineReqs(s.log.queue, w));
    assert InFlight(t, w) == head + (MineReqs(t.log.batch, w) + MineReqs(t.log.queue, w));
  }

  lemma NotRunningStays(l: G.Log, step: G.Action)
    requires !l.mode.Running? && !step.Start?
    ensures !G.Next(l, step).mode.Running?
  {
    hide ScanFrom, EncodeAll;
  }

  // ------------------------------------------------------------ the hand-over

  lemma PushOrder(s: State, w: nat)
    requires CanPush(s) && w < |s.workers|
    ensures var t := DoPush(s);
            var d := G.Done(s.log.batch[0], s.log.pc.ok);
            var own := if w == d.req.worker then [d] else [];
            && Mine(t.log.completed, w) == Mine(s.log.completed, w) + own
            && Rev(t.workers[w].stack) == Rev(s.workers[w].stack) + own
            && MineReqs(s.log.batch, w) == G.Reqs(own) + MineReqs(t.log.batch, w)
  {
    hide MineReqs, Mine, Rev;
    var t, k := DoPush(s), s.workers[w];
    var d := G.Done(s.log.batch[0], s.log.pc.ok);
    MineAppend(s.log.completed, d, w);
    if w == d.req.worker {
      RevPush(k.stack, d);
    }
    assert s.log.batch == [d.req] + t.log.batch;
    MineReqsConcat([d.req], t.log.batch, w);
    MineReqsOne(d.req, w);
  }

  /** Completing the next request moves it from the batch to its worker's stack without moving it
      in anyone's order. */
  lemma PushFlight(s: State, w: nat)
    requires CanPush(s) && w < |s.workers|
    ensures InFlight(DoPush(s), w) == InFlight(s, w)
  {
    hide MineReqs, Mine, Rev, G.Reqs;
    var d := G.Done(s.log.batch[0], s.log.pc.ok);
    PushOrder(s, w);
    ReqsConcat(Rev(s.workers[w].stack), if w == d.req.worker then [d] else []);
  }

  lemma MineReqsOne(r: Req, w: nat)
    ensures MineReqs([r], w) == if r.worker == w then [r] else []
  {
    assert [] + [r] == [r];
    MineReqsAppend([], r, w);
  }

  lemma PushKeepsWorker(s: State, w: nat)
    requires CanPush(s) && w < |s.workers| && WorkerInv(s, w)
    ensures WorkerInv(DoPush(s), w)
  {
    hide InFlight, Mine, Alive, Rev, MineReqs;
    PushOrder(s, w);
    PushFlight(s, w);
  }

  lemma PushKeeps(s: State)
    requires Inv(s) && CanPush(s)
    ensures Inv(DoPush(s))
  {
    hide D.Inv, WorkerInv, Replay, MineReqs, Oks, G.Records;
    var t := DoPush(s);
    D.CompleteKeeps(s.log);
    forall w | 0 <= w < |s.workers|
      ensures WorkerInv(t, w)
    {
      PushKeepsWorker(s, w);
    }
    if |s.workers| == 1 {
      PushKeepsShown(s);
    }
  }

  /** A completion that has not been handled yet does not change what the table shows. */
  lemma PushKeepsShown(s: State)
    requires Inv(s) && CanPush(s) && |s.workers| == 1
    ensures Shown(DoPush(s)) == Shown(s)
  {
    hide D.DiskInv, Mine, Alive, Rev, Replay, MineReqs;
    OneWorkerOrder(s);
  }

  /** With one worker, everything is its own. */
  lemma {:induction false} MineAll(ds: seq<Done>)
    requires forall i :: 0 <= i < |ds| ==> ds[i].req.worker == 0
    ensures Mine(ds, 0) == ds
  {
    if ds != [] {
      MineAll(ds[..|ds| - 1]);
    }
  }

  lemma OneWorkerOrder(s: State)
    requires Inv(s) && s.log.mode.Running? && |s.workers| == 1
    ensures s.workers[0].applied + s.workers[0].detached + Rev(s.workers[0].stack) == s.log.completed
    ensures s.workers[0].applied <= s.log.completed
  {
    hide D.DiskInv, D.WriterInv, Mine, Alive, Rev, Replay, MineReqs;
    forall i | 0 <= i < |s.log.completed|
      ensures s.log.completed[i].req.worker == 0
    {
      assert s.log.accepted[i] == s.log.completed[i].req;
    }
    MineAll(s.log.completed);
    assert WorkerInv(s, 0);
  }

  lemma ExchangeKeeps(s: State)
    requires Inv(s) && s.signal.Pushed? && s.signal.worker < |s.workers|
    ensures Inv(Next(s, Exchange))
  {
    hide D.Inv, InFlight, Mine, Alive, Rev, Replay;
    var t := Next(s, Exchange);
    if s.log.mode.Running? {
      forall w | 0 <= w < |s.workers|
        ensures WorkerInv(t, w)
      {
        InFlightSame(s, t, w);
        assert WorkerInv(s, w);
      }
    }
  }

  lemma RingKeeps(s: State)
    requires Inv(s) && s.signal.MustRing? && s.signal.worker < |s.workers|
    ensures Inv(Next(s, Ring))
  {
    hide D.Inv, InFlight, Mine, Alive, Rev, Replay;
    var t := Next(s, Ring);
    if s.log.mode.Running? {
      forall w | 0 <= w < |s.workers|
        ensures WorkerInv(t, w)
      {
        InFlightSame(s, t, w);
        assert WorkerInv(s, w);
      }
    }
  }

  // ------------------------------------------------------------ the workers' steps

  /** A step of one worker that leaves the log and the table alone needs checking for that worker only. */
  lemma OneWorkerStep(s: State, w: nat, k: Worker)
    requires Inv(s) && s.log.mode.Running? && w < |s.workers|
    requires WorkerInv(Set(s, w, k), w)
    requires k.applied == s.workers[w].applied
    ensures Inv(Set(s, w, k))
  {
    hide D.Inv, InFlight, Mine, Alive, Rev, Replay;
    var t := Set(s, w, k);
    forall v | 0 <= v < |s.workers|
      ensures WorkerInv(t, v)
    {
      if v != w {
        InFlightSame(s, t, v);
        Untouched(s, t, v);
      }
    }
  }

  /** Waking, draining the eventfd and clearing the flag. */
  lemma WakingKeeps(s: State, w: nat, k: Worker)
    requires Inv(s) && s.log.mode.Running? && w < |s.workers|
    requires var was := s.workers[w];
             || (was.at.Polling? && !was.exited && was.eventfd && k == was.(at := Woken))
             || (was.at.Woken? && k == was.(at := Drained, eventfd := false))
             || (was.at.Drained? && k == was.(at := Cleared, flag := false))
    ensures Inv(Set(s, w, k))
  {
    hide D.Inv, InFlight, Mine, Alive, Rev, Replay;
    assert WorkerInv(s, w);
    InFlightSame(s, Set(s, w, k), w);
    OneWorkerStep(s, w, k);
  }

  lemma NoReqs()
    ensures G.Reqs([]) == [] && Rev<Done>([]) == []
  {
  }

  lemma EmptyMoves<T>(p: seq<T>, q: seq<T>)
    ensures p + [] + q == p + q + [] == p + q
  {
  }

  lemma DetachFlight(s: State, w: nat)
    requires w < |s.workers| && s.workers[w].detached == []
    ensures var t := Set(s, w, DoDetach(s.workers[w]));
            && InFlight(t, w) == InFlight(s, w)
            && (InOrder(s, w) ==> InOrder(t, w))
            && (t.workers[w].detached == [] <==> s.workers[w].stack == [])
  {
    hide Rev, G.Reqs, Mine, MineReqs;
    var k := s.workers[w];
    NoReqs();
    RevAt(k.stack, 0);
    EmptyMoves([], G.Reqs(Rev(k.stack)));
    EmptyMoves(k.applied, Rev(k.stack));
  }

  lemma DetachKeeps(s: State, w: nat)
    requires Inv(s) && s.log.mode.Running? && w < |s.workers| && s.workers[w].at.Cleared?
    ensures Inv(Set(s, w, DoDetach(s.workers[w])))
  {
    hide D.Inv, InFlight, InOrder, Mine, Alive, Rev, Replay;
    assert WorkerInv(s, w);
    DetachFlight(s, w);
    OneWorkerStep(s, w, DoDetach(s.workers[w]));
  }

  // Connections come and go; those the log names stay.

  lemma AcceptAlive(flight: seq<Req>, conns: map<nat, Conn>, count: nat, c: nat)
    requires Alive(flight, conns, count) && c !in conns
    ensures Alive(flight, conns[c := Conn(None, false)], count)
  {
  }

  lemma CloseAlive(flight: seq<Req>, conns: map<nat, Conn>, count: nat, c: nat)
    requires Alive(flight, conns, count) && c in conns
    ensures Alive(flight, CloseConn(conns, c), count)
  {
  }

  lemma CloseAllAlive(flight: seq<Req>, conns: map<nat, Conn>, count: nat)
    requires Alive(flight, conns, count)
    ensures Alive(flight, CloseAll(conns), count)
  {
  }

  lemma SubmitAlive(flight: seq<Req>, conns: map<nat, Conn>, count: nat, r: Req)
    requires Alive(flight, conns, count) && r.conn in conns && conns[r.conn].pending.None?
    ensures Alive(flight + [r], conns[r.conn := Conn(Some(r), false)], count + 1)
  {
  }

  lemma FinishAlive(flight: seq<Req>, conns: map<nat, Conn>, count: nat, conns': map<nat, Conn>)
    requires Alive(flight, conns, count) && flight != []
    requires conns' == conns - {flight[0].conn} || conns' == conns[flight[0].conn := Conn(None, false)]
    ensures count > 0 && Alive(flight[1..], conns', count - 1)
  {
    var r := flight[0];
    assert flight == [r] + flight[1..];
    forall c | c in conns' && conns'[c].pending.Some?
      ensures conns'[c].pending.value.conn == c && conns'[c].pending.value in flight[1..]
    {
      assert c != r.conn;
      assert conns[c].pending.value in flight;
    }
  }

  /** Accepting, closing and draining only concern connections no request names. */
  lemma ConnsKeep(s: State, w: nat, conns: map<nat, Conn>, draining: bool)
    requires Inv(s) && s.log.mode.Running? && w < |s.workers| && Handling(s.workers[w])
    requires Alive(InFlight(s, w), conns, s.workers[w].pendingCount)
    ensures Inv(Set(s, w, s.workers[w].(conns := conns, draining := draining)))
  {
    hide D.Inv, InFlight, Mine, Alive, Rev, Replay;
    var k := s.workers[w].(conns := conns, draining := draining);
    assert WorkerInv(s, w);
    InFlightSame(s, Set(s, w, k), w);
    OneWorkerStep(s, w, k);
  }

  lemma MutateFlight(s: State, w: nat, a: G.Action, v: nat)
    requires CanMutate(s, w, a) && v < |s.workers|
    ensures InFlight(DoMutate(s, w, a), v) == InFlight(s, v) + if v == w then [G.Request(s.log, a)] else []
  {
    hide MineReqs, Rev, G.Reqs;
    MineReqsAppend(s.log.queue, G.Request(s.log, a), v);
  }

  lemma MutateKeepsWorker(s: State, w: nat, a: G.Action, v: nat)
    requires CanMutate(s, w, a) && v < |s.workers| && WorkerInv(s, v)
    ensures WorkerInv(DoMutate(s, w, a), v)
  {
    hide InFlight, Mine, Alive, Rev, G.CanSubmit;
    var t, k := DoMutate(s, w, a), s.workers[w];
    MutateFlight(s, w, a, v);
    if v == w {
      SubmitAlive(InFlight(s, w), k.conns, k.pendingCount, G.Request(s.log, a));
    } else {
      assert InFlight(s, v) + [] == InFlight(s, v);
      Untouched(s, t, v);
    }
  }

  lemma MutateKeepsTable(s: State, w: nat, a: G.Action)
    requires CanMutate(s, w, a) && TableInv(s) && EffectsInv(s)
    ensures TableInv(DoMutate(s, w, a)) && EffectsInv(DoMutate(s, w, a))
  {
    hide Replay, MineReqs, Oks, G.Records, G.CanSubmit;
    var t := DoMutate(s, w, a);
    assert t.log.history[..s.log.base] == s.log.history[..s.log.base];
    if |s.workers| == 1 && s.tableOk {
      assert t.log.history[..Shown(s)] == s.log.history[..Shown(s)];
    }
  }

  lemma MutateKeeps(s: State, w: nat, a: G.Action)
    requires Inv(s) && CanMutate(s, w, a)
    ensures Inv(DoMutate(s, w, a))
  {
    hide D.Inv, WorkerInv, TableInv, EffectsInv, G.CanSubmit;
    D.SubmitKeeps(s.log, a);
    MutateNeedsRunning(s, a);
    MutateKeepsTable(s, w, a);
    forall v | 0 <= v < |s.workers|
      ensures WorkerInv(DoMutate(s, w, a), v)
    {
      MutateKeepsWorker(s, w, a, v);
    }
  }

  lemma MutateNeedsRunning(s: State, a: G.Action)
    requires a.Submit? && G.CanSubmit(s.log, a)
    ensures s.log.mode.Running?
  {
  }

  /** Handling a completion is finishing the oldest request in flight. */
  lemma ProcessFlight(s: State, w: nat, alloc: bool)
    requires w < |s.workers| && s.workers[w].detached != []
    ensures InFlight(s, w) != [] && InFlight(s, w)[0] == s.workers[w].detached[0].req
    ensures InFlight(DoProcess(s, w, alloc), w) == InFlight(s, w)[1..]
  {
    hide MineReqs, Rev, G.Reqs, Apply;
    var k := s.workers[w];
    ReqsHead(k.detached);
    assert InFlight(s, w) == [k.detached[0].req] + InFlight(DoProcess(s, w, alloc), w);
  }

  lemma ReqsHead(ds: seq<Done>)
    requires ds != []
    ensures G.Reqs(ds) == [ds[0].req] + G.Reqs(ds[1..])
  {
  }

  lemma ProcessKeepsWorker(s: State, w: nat, alloc: bool)
    requires w < |s.workers| && WorkerInv(s, w) && s.workers[w].at.Processing? && s.workers[w].detached != []
    ensures WorkerInv(DoProcess(s, w, alloc), w)
  {
    hide InFlight, Mine, Rev;
    var t, k := DoProcess(s, w, alloc), s.workers[w];
    ProcessFlight(s, w, alloc);
    var r := k.detached[0].req;
    assert InFlight(s, w)[0].conn == r.conn && r.conn in k.conns;
    assert Alive(InFlight(t, w), t.workers[w].conns, t.workers[w].pendingCount) by {
      hide Alive;
      FinishAlive(InFlight(s, w), k.conns, k.pendingCount, t.workers[w].conns);
    }
    assert k.applied + [k.detached[0]] + k.detached[1..] == k.applied + k.detached;
  }

  /** With one worker, the completion handled next is the next one of the log, so the table moves
      to the replay of one more record exactly when that record is durable. */
  lemma ProcessKeepsTable(s: State, alloc: bool)
    requires Inv(s) && s.log.mode.Running? && |s.workers| == 1 && s.workers[0].detached != []
    ensures TableInv(DoProcess(s, 0, alloc))
  {
    hide D.DiskInv, Mine, Alive, Rev, Apply, MineReqs, G.Records, G.Reqs, EncodeAll;
    var t, k, l := DoProcess(s, 0, alloc), s.workers[0], s.log;
    var d, i := k.detached[0], |k.applied|;
    OneWorkerOrder(s);
    assert l.completed[i] == d;
    assert l.accepted[i] == d.req;
    assert l.history[l.base + i] == l.history[l.base..][i] == d.req.record;
    if t.tableOk && d.ok {
      assert Shown(s) == l.base + i && Shown(t) == l.base + i + 1;
      assert l.history[..Shown(t)] == l.history[..Shown(s)] + [d.req.record];
      ReplayExtends(map[], l.history[..Shown(s)], d.req.record);
    }
  }

  lemma ProcessKeepsEffects(s: State, w: nat, alloc: bool)
    requires Inv(s) && s.log.mode.Running? && w < |s.workers|
    requires s.workers[w].detached != [] && s.workers[w].detached[0].req.worker == w
    ensures EffectsInv(DoProcess(s, w, alloc))
  {
    hide D.Inv, WorkerInv, TableInv, Mine, MineReqs, Oks, Apply, Replay, G.Records, G.Reqs;
    var t := DoProcess(s, w, alloc);
    var d := s.workers[w].detached[0];
    if t.effects != s.effects {
      assert G.Records(s.effects + [d.req]) == G.Records(s.effects) + [d.req.record];
      var shown := s.log.history[..s.log.base] + G.Records(s.effects);
      ReplayExtends(map[], shown, d.req.record);
      assert shown + [d.req.record] == s.log.history[..s.log.base] + G.Records(t.effects);
    }
    forall v | t.tableOk && 0 <= v < |s.workers|
      ensures MineReqs(t.effects, v) == G.Reqs(Oks(t.workers[v].applied))
    {
      MineReqsAppend(s.effects, d.req, v);
      if v == w {
        OksAppend(s.workers[w].applied, d);
        ReqsAppend(Oks(s.workers[w].applied), d);
      }
    }
  }

  lemma OksAppend(ds: seq<Done>, d: Done)
    ensures Oks(ds + [d]) == Oks(ds) + if d.ok then [d] else []
  {
    assert (ds + [d])[..|ds|] == ds;
  }

  /** What a worker detaches is its own. */
  lemma DetachedIsOwn(s: State, w: nat)
    requires w < |s.workers| && WorkerInv(s, w) && s.workers[w].detached != []
    ensures s.workers[w].detached[0].req.worker == w
  {
    hide InFlight, Mine, Alive, Rev;
    var k := s.workers[w];
    MineIsOwn(s.log.completed, w);
    assert Mine(s.log.completed, w)[|k.applied|] == k.detached[0];
  }

  lemma {:induction false} MineIsOwn(ds: seq<Done>, w: nat)
    ensures forall i :: 0 <= i < |Mine(ds, w)| ==> Mine(ds, w)[i].req.worker == w
  {
    if ds != [] {
      MineIsOwn(ds[..|ds| - 1], w);
    }
  }

  lemma ProcessKeeps(s: State, w: nat, alloc: bool)
    requires Inv(s) && s.log.mode.Running? && w < |s.workers|
    requires s.workers[w].at.Processing? && s.workers[w].detached != []
    ensures Inv(DoProcess(s, w, alloc))
  {
    hide D.Inv, InFlight, Mine, Alive, Rev, Replay;
    var t := DoProcess(s, w, alloc);
    forall v | 0 <= v < |s.workers|
      ensures WorkerInv(t, v)
    {
      if v == w {
        ProcessKeepsWorker(s, w, alloc);
      } else {
        InFlightSame(s, t, v);
        Untouched(s, t, v);
      }
    }
    if |s.workers| == 1 {
      ProcessKeepsTable(s, alloc);
    }
    DetachedIsOwn(s, w);
    ProcessKeepsEffects(s, w, alloc);
  }

  lemma LeaveKeeps(s: State, w: nat)
    requires Inv(s) && s.log.mode.Running? && w < |s.workers|
    requires s.workers[w].at.Polling? && s.workers[w].draining && s.workers[w].pendingCount == 0
    ensures Inv(Set(s, w, s.workers[w].(exited := true, conns := map[])))
  {
    hide D.Inv, InFlight, Mine, Rev, Replay;
    var k := s.workers[w].(exited := true, conns := map[]);
    assert WorkerInv(s, w);
    InFlightSame(s, Set(s, w, k), w);
    OneWorkerStep(s, w, k);
  }

  lemma GetKeeps(s: State, w: nat, c: nat, key: seq<byte>)
    requires Inv(s)
    ensures Inv(DoGet(s, w, c, key))
  {
    hide D.Inv, InFlight, Mine, Alive, Rev, Replay, MineReqs;
    var t := DoGet(s, w, c, key);
    forall v | 0 <= v < |s.workers| && s.log.mode.Running?
      ensures WorkerInv(t, v)
    {
      InFlightSame(s, t, v);
      assert WorkerInv(s, v);
    }
  }

  lemma WorkerKeeps(s: State, a: Action)
    requires Inv(s) && s.log.mode.Running? && WorkerStep(a) && a.w < |s.workers|
    ensures Inv(WorkerNext(s, a))
  {
    hide Inv, DoGet, DoMutate, DoProcess, DoDetach, CloseConn, CloseAll, CanMutate;
    var k := s.workers[a.w];
    assert Alive(InFlight(s, a.w), k.conns, k.pendingCount) by { AliveNow(s, a.w); }
    match a
    case Accept(w, c) =>
      if Handling(k) && c !in k.conns {
        AcceptAlive(InFlight(s, w), k.conns, k.pendingCount, c);
        ConnsKeep(s, w, k.conns[c := Conn(None, false)], k.draining);
      }
    case Get(w, c, key) => GetKeeps(s, w, c, key);
    case Mutate(w, submit) => if CanMutate(s, w, submit) { MutateKeeps(s, w, submit); }
    case Close(w, c) =>
      if Handling(k) && c in k.conns {
        CloseAlive(InFlight(s, w), k.conns, k.pendingCount, c);
        ConnsKeep(s, w, CloseConn(k.conns, c), k.draining);
      }
    case BeginDraining(w) =>
      if Handling(k) {
        CloseAllAlive(InFlight(s, w), k.conns, k.pendingCount);
        ConnsKeep(s, w, CloseAll(k.conns), true);
      }
    case Wake(w) => if !k.exited && k.at.Polling? && k.eventfd { WakingKeeps(s, w, k.(at := Woken)); }
    case Drain(w) => if k.at.Woken? { WakingKeeps(s, w, k.(at := Drained, eventfd := false)); }
    case Clear(w) => if k.at.Drained? { WakingKeeps(s, w, k.(at := Cleared, flag := false)); }
    case Detach(w) => if k.at.Cleared? { DetachKeeps(s, w); }
    case Process(w, alloc) => if k.at.Processing? && k.detached != [] { ProcessKeeps(s, w, alloc); }
    case Leave(w) => if k.at.Polling? && k.draining && k.pendingCount == 0 { LeaveKeeps(s, w); }
  }

  lemma AliveNow(s: State, w: nat)
    requires Inv(s) && s.log.mode.Running? && w < |s.workers|
    ensures Alive(InFlight(s, w), s.workers[w].conns, s.workers[w].pendingCount)
  {
    hide Alive, InFlight, D.Inv;
    assert WorkerInv(s, w);
  }

  // ------------------------------------------------------------ crashes and starts

  lemma StartKeeps(s: State, n: nat)
    requires Inv(s)
    ensures Inv(Next(s, Start(n)))
  {
    hide ScanFrom, Replay, EncodeAll, G.Records, MineReqs;
    var t := Next(s, Start(n));
    D.NextKeeps(s.log, G.Action.Start);
    var l := G.Next(s.log, G.Action.Start);
    if s.log.mode.Recovering? && l.mode.Running? {
      assert l.completed == [] && l.queue == [] && l.batch == [] && l.accepted == [];
      forall w | 0 <= w < n
        ensures WorkerInv(t, w)
      {
        assert t.workers[w] == FRESH;
        MineNothing(w);
        assert InFlight(t, w) == [];
      }
      assert l.history[..|l.history|] == l.history == l.history + G.Records([]);
      forall w | 0 <= w < n
        ensures MineReqs(t.effects, w) == G.Reqs(Oks(t.workers[w].applied))
      {
        assert t.workers[w] == FRESH;
        MineNothing(w);
      }
    }
  }

  lemma MineNothing(w: nat)
    ensures Mine([], w) == [] && MineReqs([], w) == [] && Rev<Done>([]) == []
  {
  }

  lemma NextKeeps(s: State, a: Action)
    requires Inv(s)
    ensures Inv(Next(s, a))
  {
    hide Inv, G.Next, DoPush, CanPush, WorkerNext, ScanFrom;
    match a
    case Writer(step) => if WriterStep(step) { WriterKeeps(s, step); }
    case Push => if CanPush(s) { PushKeeps(s); }
    case Exchange => if s.signal.Pushed? && s.signal.worker < |s.workers| { ExchangeKeeps(s); }
    case Ring => if s.signal.MustRing? && s.signal.worker < |s.workers| { RingKeeps(s); }
    case Stop => WriterKeeps(s, G.Stop);
    case Fail(crash) => if crash.Kill? || crash.PowerLoss? { CrashKeeps(s, crash); }
    case Repair(step) => if RecoveryStep(step) { CrashKeeps(s, step); }
    case Start(n) => StartKeeps(s, n);
    case _ => if s.log.mode.Running? && a.w < |s.workers| { WorkerKeeps(s, a); }
  }

  lemma CrashKeeps(s: State, step: G.Action)
    requires Inv(s)
    requires step.Kill? || step.PowerLoss? || RecoveryStep(step)
    ensures Inv(s.(log := G.Next(s.log, step)))
  {
    hide D.Inv, WorkerInv, TableInv, ScanFrom;
    D.NextKeeps(s.log, step);
    var t := s.(log := G.Next(s.log, step));
    if t.log.mode.Running? {
      assert t == s;
    }
  }

  lemma InitHolds(batchMax: nat)
    requires batchMax > 0
    ensures Inv(Init(batchMax))
  {
    D.InitHolds(batchMax);
  }

  lemma {:induction false} RunKeeps(s: State, actions: seq<Action>)
    requires Inv(s)
    ensures Inv(Run(s, actions))
    decreases |actions|
  {
    hide Inv, Next;
    if actions != [] {
      NextKeeps(s, actions[0]);
      RunKeeps(Next(s, actions[0]), actions[1..]);
    }
  }

  // ------------------------------------------------------------ what it means

  ghost predicate Reachable(s: State)
  {
    exists batchMax: nat, actions :: batchMax > 0 && s == Run(Init(batchMax), actions)
  }

  lemma ReachableInv(s: State)
    requires Reachable(s)
    ensures Inv(s)
  {
    hide Inv, Run;
    var batchMax: nat, actions :| batchMax > 0 && s == Run(Init(batchMax), actions);
    InitHolds(batchMax);
    RunKeeps(Init(batchMax), actions);
  }

  /** No lost wakeup: whenever completions wait on a stack, the worker's eventfd is readable, or the
      writer has yet to finish signalling, or the worker has yet to detach the stack. */
  lemma NoLostWakeup(s: State, w: nat)
    requires Reachable(s) && s.log.mode.Running? && w < |s.workers| && s.workers[w].stack != []
    ensures || s.workers[w].eventfd
            || s.signal == Pushed(w) || s.signal == MustRing(w)
            || s.workers[w].at.Drained? || s.workers[w].at.Cleared?
  {
    hide InFlight, Mine, Alive, Rev, D.Inv, TableInv;
    ReachableInv(s);
    assert WorkerInv(s, w);
  }

  ghost predicate NamedBy(s: State, w: nat, r: Req)
    requires w < |s.workers|
  {
    || (r in s.log.queue && r.worker == w)
    || (r in s.log.batch && r.worker == w)
    || r in G.Reqs(s.workers[w].stack)
    || r in G.Reqs(s.workers[w].detached)
  }

  /** A connection named by a queued, batched or stacked request is alive and waiting for exactly
      that request, which is named once; and the pending count is the number of such requests. */
  lemma NamedConnectionsLive(s: State, w: nat)
    requires Reachable(s) && s.log.mode.Running? && w < |s.workers|
    ensures var k := s.workers[w];
            && k.pendingCount == |InFlight(s, w)|
            && (forall r :: NamedBy(s, w, r) ==> r in InFlight(s, w))
            && (forall r :: r in InFlight(s, w) ==> r.conn in k.conns && k.conns[r.conn].pending == Some(r))
            && (forall i, j :: 0 <= i < j < |InFlight(s, w)| ==> InFlight(s, w)[i].conn != InFlight(s, w)[j].conn)
  {
    hide D.Inv, TableInv, Mine, Rev, MineReqs;
    ReachableInv(s);
    var k := s.workers[w];
    assert WorkerInv(s, w);
    forall r | NamedBy(s, w, r)
      ensures r in InFlight(s, w)
    {
      MineReqsIn(s.log.queue, w, r);
      MineReqsIn(s.log.batch, w, r);
      RevReqsIn(k.stack, r);
    }
  }

  lemma {:induction false} MineReqsIn(rs: seq<Req>, w: nat, r: Req)
    ensures r in MineReqs(rs, w) <==> r in rs && r.worker == w
  {
    if rs != [] {
      MineReqsIn(rs[..|rs| - 1], w, r);
    }
  }

  lemma {:induction false} RevReqsIn(ds: seq<Done>, r: Req)
    ensures r in G.Reqs(Rev(ds)) <==> r in G.Reqs(ds)
  {
    if ds != [] {
      RevReqsIn(ds[1..], r);
      ReqsAppend(Rev(ds[1..]), ds[0]);
      ReqsHead(ds);
    }
  }

  /** A worker handles the completions of its own requests in the order the log completed them,
      which is increasing sequence order: the stack's reversal is undone. */
  lemma AppliedInLogOrder(s: State, w: nat)
    requires Reachable(s) && s.log.mode.Running? && w < |s.workers|
    ensures s.workers[w].applied <= Mine(s.log.completed, w)
    ensures forall i, j :: 0 <= i < j < |s.workers[w].applied| ==>
              s.workers[w].applied[i].req.record.sequence < s.workers[w].applied[j].req.record.sequence
  {
    hide InFlight, Mine, Alive, Rev, D.DiskInv, D.WriterInv, TableInv, G.Records, G.Reqs;
    ReachableInv(s);
    assert WorkerInv(s, w);
    forall i | 0 <= i < |s.log.completed|
      ensures s.log.completed[i].req.record.sequence == s.log.base + i + 1
    {
      CompletedSequence(s.log, i);
    }
    MineIncreasing(s.log.completed, s.log.base, w);
  }

  lemma CompletedSequence(l: G.Log, i: nat)
    requires D.Inv(l) && l.mode.Running? && i < |l.completed|
    ensures l.completed[i].req.record.sequence == l.base + i + 1
  {
    hide EncodeAll, D.Recovered, G.Records, G.Reqs;
    assert l.accepted[i] == l.completed[i].req;
    assert l.history[l.base..][i] == l.history[l.base + i];
  }

  lemma {:induction false} MineIncreasing(ds: seq<Done>, base: nat, w: nat)
    requires forall i :: 0 <= i < |ds| ==> ds[i].req.record.sequence == base + i + 1
    ensures forall i :: 0 <= i < |Mine(ds, w)| ==> Mine(ds, w)[i].req.record.sequence <= base + |ds|
    ensures forall i, j :: 0 <= i < j < |Mine(ds, w)| ==>
              Mine(ds, w)[i].req.record.sequence < Mine(ds, w)[j].req.record.sequence
  {
    if ds != [] {
      MineIncreasing(ds[..|ds| - 1], base, w);
    }
  }

  /** With one worker and no failed allocation, the table is at all times the replay of a prefix of
      the log: everything recovered, then mutations acknowledged as durable, in log order, and nothing
      else. */
  lemma TableIsAReplay(s: State)
    requires Reachable(s) && s.log.mode.Running? && |s.workers| == 1 && s.tableOk
    ensures Shown(s) <= |s.log.history|
    ensures s.table == Replay(map[], s.log.history[..Shown(s)])
    ensures s.log.base <= Shown(s) <= D.Covered(s.log)
    ensures s.log.acked <= s.log.base + |s.workers[0].applied| ==> s.log.acked <= Shown(s)
  {
    hide D.Inv, WorkerInv, Replay;
    ReachableInv(s);
  }

  /** With any number of workers: the table is the recovered state with the durable mutations of each
      worker applied in that worker's log order, each exactly once, and with nothing else. */
  lemma TableIsAnInterleaving(s: State)
    requires Reachable(s) && s.log.mode.Running? && s.tableOk
    ensures s.log.base <= |s.log.history|
    ensures s.table == Replay(map[], s.log.history[..s.log.base] + G.Records(s.effects))
    ensures forall w :: 0 <= w < |s.workers| ==> MineReqs(s.effects, w) == G.Reqs(Oks(s.workers[w].applied))
  {
    hide D.Inv, WorkerInv, TableInv, Replay, MineReqs, Oks;
    ReachableInv(s);
  }

  /** A worker that has left its loop has handled every request it ever submitted. */
  lemma LeavesNothingBehind(s: State, w: nat)
    requires Reachable(s) && s.log.mode.Running? && w < |s.workers| && s.workers[w].exited
    ensures InFlight(s, w) == []
    ensures G.Reqs(s.workers[w].applied) == MineReqs(s.log.accepted, w)
  {
    hide Inv, InFlight, MineReqs, G.Reqs;
    ReachableInv(s);
    ExitedHasHandled(s, w);
  }

  lemma ExitedHasHandled(s: State, w: nat)
    requires Inv(s) && s.log.mode.Running? && w < |s.workers| && s.workers[w].exited
    ensures InFlight(s, w) == []
    ensures G.Reqs(s.workers[w].applied) == MineReqs(s.log.accepted, w)
  {
    hide Mine, Rev, D.DiskInv, D.WriterInv, TableInv, G.Records, MineReqs;
    var k, l := s.workers[w], s.log;
    assert WorkerInv(s, w);
    RevLengthOfReqs(k.stack);
    assert k.detached == [] && Rev(k.stack) == [];
    assert k.applied == Mine(l.completed, w);
    MineReqsOfDone(l.completed, w);
    MineReqsConcat(G.Reqs(l.completed) + l.batch, l.queue, w);
    MineReqsConcat(G.Reqs(l.completed), l.batch, w);
  }

  lemma RevLengthOfReqs(ds: seq<Done>)
    ensures |G.Reqs(Rev(ds))| == |ds| == |Rev(ds)|
  {
    RevAt(ds, 0);
  }
}
