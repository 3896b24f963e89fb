/**
 Nothing gets stuck (src/main.c, src/wal.c): from whatever state the running server is in, its own threads
 can finish everything that was accepted and leave their loops.
 */
module Shutdown {
  import opened Bytes
  import opened WalScan
  import opened Mutation
  import opened Sequences
  import opened Server
  import opened ServerSafety
  import P = Protocol
  import G = GroupCommit
  import D = Durability

  /** What the server's threads do by themselves: no client, no crash and no failure is needed. */
  predicate Internal(a: Action)
  {
    || a.Push? || a.Exchange? || a.Ring? || a.BeginDraining? || a.Wake? || a.Drain? || a.Clear? || a.Detach?
    || (a.Process? && a.alloc) || a.Leave? || a.Stop?
    || (a.Writer? && (a.step.Take? || a.step.Write? || a.step == G.Sync(true) || a.step.Exit?))
  }

  // ------------------------------------------------------------ closing and draining

  /** A closed connection hears nothing more; it is forgotten unless the log still names it, and no other
      connection is concerned. */
  lemma ClosingOne(s: State, w: nat, c: nat)
    requires s.log.mode.Running? && w < |s.workers| && Handling(s.workers[w]) && c in s.workers[w].conns
    ensures var t, k := Next(s, Close(w, c)), s.workers[w];
            && t == s.(workers := t.workers) && |t.workers| == |s.workers| && !Listening(t.workers[w], c)
            && (c in t.workers[w].conns <==> k.conns[c].pending.Some?)
            && (c in t.workers[w].conns ==> t.workers[w].conns[c].pending == k.conns[c].pending)
            && (forall d :: d != c ==> (d in t.workers[w].conns <==> d in k.conns))
            && (forall d :: d != c && d in k.conns ==> t.workers[w].conns[d] == k.conns[d])
            && (forall v :: 0 <= v < |s.workers| && v != w ==> t.workers[v] == s.workers[v])
  {
  }

  /** A worker that drains listens to nobody, keeps exactly the connections the log still names, and takes on
      nothing new. */
  lemma Draining(s: State, w: nat, a: Action)
    requires s.log.mode.Running? && w < |s.workers| && Handling(s.workers[w])
    ensures var t, k := Next(s, BeginDraining(w)), s.workers[w];
            && |t.workers| == |s.workers| && t.workers[w].draining
            && (forall c :: !Listening(t.workers[w], c))
            && (forall c :: c in t.workers[w].conns <==> c in k.conns && k.conns[c].pending.Some?)
            && (forall c :: c in t.workers[w].conns ==> t.workers[w].conns[c].pending == k.conns[c].pending)
            && ((a.Accept? || a.Get? || a.Mutate?) && a.w == w ==> Next(t, a) == t)
  {
    hide G.DoSubmit, P.GetReply;
  }

  // ------------------------------------------------------------ signals have an addressee

  ghost predicate Addressed(s: State)
  {
    s.log.mode.Running? && !s.signal.Quiet? ==> s.signal.worker < |s.workers|
  }

  lemma AddressedStays(s: State, a: Action)
    requires Addressed(s)
    ensures Addressed(Next(s, a))
  {
    hide G.DoComplete, G.DoSubmit, G.DoTake, G.DoSync, ScanFrom, EncodeAll, AllValid, G.Records;
  }

  lemma {:induction false} AddressedRun(s: State, actions: seq<Action>)
    requires Addressed(s)
    ensures Addressed(Run(s, actions))
    decreases |actions|
  {
    hide Next;
    if actions != [] {
      AddressedStays(s, actions[0]);
      AddressedRun(Next(s, actions[0]), actions[1..]);
    }
  }

  // ------------------------------------------------------------ what is left to do

  function WritingRank(l: G.Log): nat
  {
    if !l.pc.Writing? then 0
    else if AllValid(G.Records(l.batch)) && l.pc.written < |EncodeAll(G.Records(l.batch))| then 2 else 1
  }

  function SignalRank(signal: Signal): nat
  {
    match signal
    case Quiet => 0
    case MustRing(_) => 1
    case Pushed(_) => 2
  }

  function AtRank(k: Worker): nat
  {
    match k.at
    case Polling => if k.stack == [] then 0 else 5
    case Woken => 4
    case Drained => 3
    case Cleared => 2
    case Processing => 1
  }

  function WorkerRank(k: Worker): nat
  {
    20 * |k.stack| + 10 * |k.detached| + AtRank(k) + (if k.draining then 0 else 1) + (if k.exited then 0 else 1)
  }

  function WorkersRank(ws: seq<Worker>): nat
  {
    if ws == [] then 0 else WorkersRank(ws[..|ws| - 1]) + WorkerRank(ws[|ws| - 1])
  }

  lemma {:induction false} RankUpdate(ws: seq<Worker>, w: nat, k: Worker)
    requires w < |ws|
    ensures WorkersRank(ws[w := k]) == WorkersRank(ws) - WorkerRank(ws[w]) + WorkerRank(k)
  {
    hide WorkerRank;
    var n := |ws| - 1;
    if w == n {
      assert ws[w := k][..n] == ws[..n];
    } else {
      assert ws[w := k][..n] == ws[..n][w := k];
      RankUpdate(ws[..n], w, k);
    }
  }

  function EndRank(l: G.Log): nat
  {
    if l.pc.Exited? then 0 else if l.stopping then 1 else 2
  }

  /** Less is left to do, in the order in which it is done. */
  ghost predicate Less(t: State, s: State)
  {
    || |t.log.queue| < |s.log.queue|
    || (|t.log.queue| == |s.log.queue| &&
        (|| |t.log.batch| < |s.log.batch|
         || (|t.log.batch| == |s.log.batch| &&
             (|| WritingRank(t.log) < WritingRank(s.log)
              || (WritingRank(t.log) == WritingRank(s.log) &&
                  (|| SignalRank(t.signal) < SignalRank(s.signal)
                   || (SignalRank(t.signal) == SignalRank(s.signal) &&
                       (|| WorkersRank(t.workers) < WorkersRank(s.workers)
                        || (WorkersRank(t.workers) == WorkersRank(s.workers) && EndRank(t.log) < EndRank(s.log))))))))))
  }

  /** Nothing is lost on the way. */
  ghost predicate Kept(s: State, t: State)
  {
    && t.log.mode.Running? && |t.workers| == |s.workers|
    && t.log.accepted == s.log.accepted && t.log.sticky == s.log.sticky
    && (s.tableOk ==> t.tableOk)
  }

  ghost predicate Finished(s: State)
  {
    s.log.pc.Exited? && forall w :: 0 <= w < |s.workers| ==> s.workers[w].exited
  }

  // ------------------------------------------------------------ there is always a next step

  /** Where the log writer can be. */
  ghost predicate AtWork(s: State)
  {
    var l := s.log;
    && l.batchMax > 0
    && (l.pc.Idle? || l.pc.Exited? ==> l.batch == [])
    && (l.pc.Exited? ==> l.queue == [])
    && (l.pc.Writing? ==>
         && l.batch != [] && AllValid(G.Records(l.batch))
         && l.pc.written <= |EncodeAll(G.Records(l.batch))|)
    && (l.pc.Completing? ==> l.batch != [] && l.batch[0].worker < |s.workers|)
  }

  lemma WriterAtWork(s: State)
    requires Inv(s) && s.log.mode.Running?
    ensures AtWork(s)
  {
    hide EncodeAll, D.Recovered, TableInv, EffectsInv, WorkerInv, G.Records;
    var l := s.log;
    D.BatchIsHistory(l);
    if l.batch != [] {
      assert l.accepted[|l.completed|] == l.batch[0];
    }
  }

  lemma SignalStep(s: State) returns (a: Action)
    requires Addressed(s) && s.log.mode.Running? && !s.signal.Quiet?
    ensures Internal(a) && Less(Next(s, a), s) && Kept(s, Next(s, a))
  {
    hide WritingRank, WorkersRank;
    a := if s.signal.Pushed? then Exchange else Ring;
  }

  lemma TakeStep(s: State)
    requires AtWork(s) && s.log.mode.Running? && s.signal.Quiet? && s.log.pc.Idle? && s.log.queue != []
    ensures Less(Next(s, Writer(G.Take)), s) && Kept(s, Next(s, Writer(G.Take)))
  {
    hide WritingRank, WorkersRank, EncodeAll, AllValid, G.Records;
  }

  lemma PushStep(s: State)
    requires AtWork(s) && s.log.mode.Running? && s.signal.Quiet? && s.log.pc.Completing?
    ensures Less(Next(s, Push), s) && Kept(s, Next(s, Push))
  {
    hide WritingRank, WorkersRank, EncodeAll, AllValid, G.Records;
  }

  lemma WriteStep(s: State) returns (a: Action)
    requires AtWork(s) && s.log.mode.Running? && s.signal.Quiet? && s.log.pc.Writing?
    ensures Internal(a) && Less(Next(s, a), s) && Kept(s, Next(s, a))
  {
    hide WorkersRank, EncodeAll, AllValid, G.Records;
    var left := |EncodeAll(G.Records(s.log.batch))| - s.log.pc.written;
    a := Writer(if left > 0 then G.Write(left) else G.Sync(true));
  }

  /** The log writer, while it has something to do or to announce. */
  lemma LogHasAStep(s: State) returns (a: Action)
    requires Inv(s) && Addressed(s) && s.log.mode.Running?
    requires !s.signal.Quiet? || s.log.queue != [] || s.log.batch != []
    ensures Internal(a) && Less(Next(s, a), s) && Kept(s, Next(s, a))
  {
    hide Inv, Next, Less, Kept;
    WriterAtWork(s);
    if !s.signal.Quiet? {
      a := SignalStep(s);
    } else if s.log.pc.Idle? {
      a := Writer(G.Take);
      TakeStep(s);
    } else if s.log.pc.Completing? {
      a := Push;
      PushStep(s);
    } else {
      a := WriteStep(s);
    }
  }

  /** A worker's own step that leaves it less to do. */
  lemma WorkerIsLess(s: State, t: State, w: nat)
    requires w < |s.workers| == |t.workers| && t.log == s.log && t.signal == s.signal && s.log.mode.Running?
    requires t.workers == s.workers[w := t.workers[w]] && WorkerRank(t.workers[w]) < WorkerRank(s.workers[w])
    requires s.tableOk ==> t.tableOk
    ensures Less(t, s) && Kept(s, t)
  {
    hide WritingRank, WorkersRank, WorkerRank;
    RankUpdate(s.workers, w, t.workers[w]);
  }

  /** What a worker finds once the log is quiet: a stack is announced, and with nothing handed over it waits for
      nothing. */
  lemma WorkerReady(s: State, w: nat)
    requires w < |s.workers| && WorkerInv(s, w) && s.signal.Quiet? && s.log.queue == s.log.batch == []
    ensures var k := s.workers[w];
            && (k.at.Processing? <==> k.detached != [])
            && (k.at.Polling? && k.stack != [] ==> k.eventfd)
            && (k.at.Polling? && k.stack == [] ==> k.pendingCount == 0)
  {
    hide Mine, Alive;
    var k := s.workers[w];
    assert Alive(InFlight(s, w), k.conns, k.pendingCount);
    assert MineReqs([], w) == [] && (k.stack == [] ==> Rev(k.stack) == []) && G.Reqs([]) == [];
    assert k.at.Polling? && k.stack == [] ==> InFlight(s, w) == [];
    CountIsFlight(InFlight(s, w), k.conns, k.pendingCount);
  }

  lemma CountIsFlight(flight: seq<Req>, conns: map<nat, Conn>, count: nat)
    requires Alive(flight, conns, count)
    ensures count == |flight|
  {
  }

  lemma ProcessIsLess(s: State, w: nat)
    requires w < |s.workers| && s.log.mode.Running? && s.workers[w].at.Processing? && s.workers[w].detached != []
    ensures Less(Next(s, Process(w, true)), s) && Kept(s, Next(s, Process(w, true)))
  {
    hide Less, Kept, Apply;
    WorkerIsLess(s, Next(s, Process(w, true)), w);
  }

  lemma DetachIsLess(s: State, w: nat)
    requires w < |s.workers| && s.log.mode.Running? && s.workers[w].at.Cleared? && s.workers[w].detached == []
    ensures Less(Next(s, Detach(w)), s) && Kept(s, Next(s, Detach(w)))
  {
    hide Less, Kept, Rev;
    RevAt(s.workers[w].stack, 0);
    WorkerIsLess(s, Next(s, Detach(w)), w);
  }

  /** A worker that has not left, once the log is quiet. */
  lemma WorkerHasAStep(s: State, w: nat) returns (a: Action)
    requires w < |s.workers| && WorkerInv(s, w) && s.log.mode.Running? && !s.workers[w].exited
    requires s.signal.Quiet? && s.log.queue == s.log.batch == []
    ensures Internal(a) && Less(Next(s, a), s) && Kept(s, Next(s, a))
  {
    hide Less, Kept, WorkerInv, CloseAll;
    WorkerReady(s, w);
    var k := s.workers[w];
    if k.at.Processing? {
      a := Process(w, true);
      ProcessIsLess(s, w);
    } else if k.at.Cleared? {
      a := Detach(w);
      DetachIsLess(s, w);
    } else if k.at.Polling? {
      a := PollingHasAStep(s, w);
    } else {
      a := if k.at.Woken? then Drain(w) else Clear(w);
      WorkerIsLess(s, Next(s, a), w);
    }
  }

  lemma PollingHasAStep(s: State, w: nat) returns (a: Action)
    requires w < |s.workers| && s.log.mode.Running? && !s.workers[w].exited && s.workers[w].at.Polling?
    requires if s.workers[w].stack != [] then s.workers[w].eventfd else s.workers[w].pendingCount == 0
    ensures Internal(a) && Less(Next(s, a), s) && Kept(s, Next(s, a))
  {
    hide Less, Kept, CloseAll;
    var k := s.workers[w];
    a := if k.stack != [] then Wake(w) else if k.draining then Leave(w) else BeginDraining(w);
    WorkerIsLess(s, Next(s, a), w);
  }

  /** The end: with every worker gone the log is stopped and its writer leaves. */
  lemma EndHasAStep(s: State) returns (a: Action)
    requires AtWork(s) && s.log.mode.Running? && s.signal.Quiet? && s.log.queue == s.log.batch == []
    requires !s.log.pc.Exited?
    ensures Internal(a) && Less(Next(s, a), s) && Kept(s, Next(s, a))
  {
    hide WorkersRank, EncodeAll, AllValid, G.Records;
    a := if s.log.stopping then Writer(G.Exit) else Stop;
  }

  /** Unless everything is finished, some thread can take a step that leaves less to do. */
  lemma SomethingCanMove(s: State) returns (a: Action)
    requires Inv(s) && Addressed(s) && s.log.mode.Running? && !Finished(s)
    ensures Internal(a) && Less(Next(s, a), s) && Kept(s, Next(s, a))
  {
    hide Next, Less, Kept, D.Inv, WorkerInv, TableInv, EffectsInv;
    if !s.signal.Quiet? || s.log.queue != [] || s.log.batch != [] {
      a := LogHasAStep(s);
    } else if w: nat :| w < |s.workers| && !s.workers[w].exited {
      a := WorkerHasAStep(s, w);
    } else {
      WriterAtWork(s);
      a := EndHasAStep(s);
    }
  }

  // ------------------------------------------------------------ so everything can be finished

  lemma {:induction false} WindDown(s: State) returns (actions: seq<Action>)
    requires Inv(s) && Addressed(s) && s.log.mode.Running?
    ensures forall i :: 0 <= i < |actions| ==> Internal(actions[i])
    ensures Inv(Run(s, actions)) && Finished(Run(s, actions)) && Kept(s, Run(s, actions))
    decreases |s.log.queue|, |s.log.batch|, WritingRank(s.log), SignalRank(s.signal), WorkersRank(s.workers),
              EndRank(s.log)
  {
    hide Inv, Next, WritingRank, SignalRank, WorkersRank, EndRank, Finished;
    if Finished(s) {
      actions := [];
    } else {
      var a := SomethingCanMove(s);
      NextKeeps(s, a);
      AddressedStays(s, a);
      var rest := WindDown(Next(s, a));
      actions := [a] + rest;
    }
  }

  /** No reachable state of the running server is a dead end: without any client, crash or failure its threads
      can bring it to rest, every request ever accepted completed by the log and handled by its worker, and all
      of them without error if the disk had not failed before. */
  lemma CanAlwaysFinish(s: State) returns (actions: seq<Action>)
    requires Reachable(s) && s.log.mode.Running?
    ensures forall i :: 0 <= i < |actions| ==> Internal(actions[i])
    ensures var t := Run(s, actions);
            && Finished(t) && |t.workers| == |s.workers| && t.log.accepted == s.log.accepted
            && G.Reqs(t.log.completed) == s.log.accepted
            && (forall w :: 0 <= w < |t.workers| ==> G.Reqs(t.workers[w].applied) == MineReqs(s.log.accepted, w))
            && (!s.log.sticky ==> forall i :: 0 <= i < |t.log.completed| ==> t.log.completed[i].ok)
            && (s.tableOk ==> t.tableOk)
  {
    hide Inv, Next, Run, D.Inv, MineReqs;
    ReachableInv(s);
    var batchMax: nat, before :| batchMax > 0 && s == Run(Init(batchMax), before);
    AddressedRun(Init(batchMax), before);
    actions := WindDown(s);
    var t := Run(s, actions);
    AllCompleted(t);
    forall w | 0 <= w < |t.workers|
      ensures G.Reqs(t.workers[w].applied) == MineReqs(s.log.accepted, w)
    {
      ExitedHasHandled(t, w);
    }
  }

  lemma AllCompleted(s: State)
    requires Inv(s) && s.log.mode.Running? && s.log.pc.Exited?
    ensures G.Reqs(s.log.completed) == s.log.accepted
    ensures !s.log.sticky ==> forall i :: 0 <= i < |s.log.completed| ==> s.log.completed[i].ok
  {
    hide D.DiskInv, TableInv, EffectsInv, WorkerInv, G.Reqs, G.Records;
    assert G.Reqs(s.log.completed) + [] + [] == G.Reqs(s.log.completed);
  }
}
