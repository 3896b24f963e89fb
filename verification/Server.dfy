/**
 The running server (src/main.c): workers that own connections, submit mutations to the log
 and apply them once durable, and the hand-over of completions from the log writer to the
 workers through an atomic stack, a flag and an eventfd.

 Each action is one atomic step of one thread; a sequence of actions is any interleaving.
 */
module Server {
  import opened Bytes
  import opened WalRecord
  import opened Mutation
  import opened Options
  import opened Sequences
  import P = Protocol
  import G = GroupCommit

  type Req = G.Req
  type Done = G.Done

  datatype Conn = Conn(pending: Option<Req>, closing: bool)

  /** Where a worker is in its loop: waiting for events or handling sockets, told that completions
      are ready, after draining the eventfd, after clearing the flag, handling a detached batch. */
  datatype At = Polling | Woken | Drained | Cleared | Processing

  datatype Worker = Worker(
    conns: map<nat, Conn>, pendingCount: nat,
    stack: seq<Done>, flag: bool, eventfd: bool,
    at: At, detached: seq<Done>, draining: bool, exited: bool,
    applied: seq<Done>)  // history: the completions handled so far

  /** How far the log writer is with signalling the completion it pushed last. */
  datatype Signal = Quiet | Pushed(worker: nat) | MustRing(worker: nat)

  /** What a client was told, and how many mutations had reached the table by then. */
  datatype Said =
    | Got(worker: nat, conn: nat, key: seq<byte>, reply: P.Response, at: nat)
    | Told(req: Req, ok: bool, at: nat)

  /** The table, whether every durable mutation handled so far fit in memory, and, as history, the
      mutations that reached it and the answers given since the last start, and every request ever
      answered OK. */
  datatype State = State(log: G.Log, workers: seq<Worker>, signal: Signal,
                         table: Store, tableOk: bool, effects: seq<Req>, said: seq<Said>, promised: seq<Req>)

  datatype Action =
    | Writer(step: G.Action)
    | Push
    | Exchange
    | Ring
    | Accept(w: nat, c: nat)
    | Get(w: nat, c: nat, key: seq<byte>)
    | Mutate(w: nat, submit: G.Action)
    | Close(w: nat, c: nat)
    | BeginDraining(w: nat)
    | Wake(w: nat)
    | Drain(w: nat)
    | Clear(w: nat)
    | Detach(w: nat)
    | Process(w: nat, alloc: bool)
    | Leave(w: nat)
    | Stop
    | Fail(crash: G.Action)
    | Repair(step: G.Action)
    | Start(workers: nat)

  const FRESH := Worker(map[], 0, [], false, false, Polling, [], false, false, [])

  function Init(batchMax: nat): State
    requires batchMax > 0
  {
    State(G.Init(batchMax), [], Quiet, map[], true, [], [], [])
  }

  // ------------------------------------------------------------ the workers' steps

  /** A worker that may run socket handlers: between waits, or inside the completion loop. */
  predicate Handling(k: Worker)
  {
    !k.exited && (k.at.Polling? || k.at.Woken? || k.at.Processing?)
  }

  /** conn_process at a SET or DEL: the connection waits for the log from here on; a refused
      submission leaves no trace. */
  predicate CanMutate(s: State, w: nat, a: G.Action)
  {
    && a.Submit? && a.worker == w < |s.workers|
    && Handling(s.workers[w]) && !s.workers[w].draining
    && a.conn in s.workers[w].conns && s.workers[w].conns[a.conn] == Conn(None, false)
    && G.CanSubmit(s.log, a)
  }

  function DoMutate(s: State, w: nat, a: G.Action): State
    requires CanMutate(s, w, a)
  {
    var k := s.workers[w];
    s.(log := G.DoSubmit(s.log, a),
       workers := s.workers[w := k.(conns := k.conns[a.conn := Conn(Some(G.Request(s.log, a)), false)],
                                    pendingCount := k.pendingCount + 1)])
  }

  /** conn_close: a connection the log still names only loses its socket. */
  function CloseConn(conns: map<nat, Conn>, c: nat): map<nat, Conn>
    requires c in conns
  {
    if conns[c].pending.Some? then conns[c := conns[c].(closing := true)] else conns - {c}
  }

  function CloseAll(conns: map<nat, Conn>): map<nat, Conn>
  {
    map c | c in conns && conns[c].pending.Some? :: conns[c].(closing := true)
  }

  /** A connection that may still be answered. */
  predicate Listening(k: Worker, c: nat)
  {
    c in k.conns && !k.conns[c].closing && !k.draining
  }

  /** conn_process at a GET: answered from the table as it is. */
  predicate CanGet(k: Worker, c: nat)
  {
    Handling(k) && !k.draining && c in k.conns && k.conns[c] == Conn(None, false)
  }

  function DoGet(s: State, w: nat, c: nat, key: seq<byte>): State
  {
    s.(said := s.said + [Got(w, c, key, P.GetReply(s.table, key), |s.effects|)])
  }

  /** Whether a durable mutation reaches the table: a delete always does, a set if memory lasts. */
  predicate Lands(d: Done, alloc: bool)
  {
    d.ok && (alloc || d.req.record.opcode == OP_DEL)
  }

  /** The first completion of the detached batch: apply it if durable, answer, and let the
      connection go on, or free it if its socket is gone or the worker is draining. */
  function DoProcess(s: State, w: nat, alloc: bool): State
    requires w < |s.workers| && s.workers[w].detached != []
  {
    var k := s.workers[w];
    var d := k.detached[0];
    var c := d.req.conn;
    var conns := if c !in k.conns then k.conns
                 else if k.conns[c].closing || k.draining then k.conns - {c}
                 else k.conns[c := Conn(None, false)];
    var lands := Lands(d, alloc);
    var effects := if lands then s.effects + [d.req] else s.effects;
    s.(workers := s.workers[w := k.(conns := conns,
                                    pendingCount := if k.pendingCount > 0 then k.pendingCount - 1 else 0,
                                    detached := k.detached[1..],
                                    applied := k.applied + [d],
                                    at := if |k.detached| == 1 then Polling else k.at)],
       table := if lands then Apply(s.table, d.req.record) else s.table,
       effects := effects,
       tableOk := s.tableOk && (d.ok ==> lands),
       said := if Listening(k, c) then s.said + [Told(d.req, lands, |effects|)] else s.said,
       promised := if Listening(k, c) && lands then s.promised + [d.req] else s.promised)
  }

  // ------------------------------------------------------------ the hand-over

  /** wal_complete, first half: the writer pushes the next completion on its worker's stack. */
  predicate CanPush(s: State)
  {
    && s.log.mode.Running? && s.signal.Quiet? && s.log.pc.Completing? && s.log.batch != []
    && s.log.batch[0].worker < |s.workers|
  }

  function DoPush(s: State): State
    requires CanPush(s)
  {
    var w := s.log.batch[0].worker;
    var k := s.workers[w];
    s.(log := G.DoComplete(s.log),
       workers := s.workers[w := k.(stack := [G.Done(s.log.batch[0], s.log.pc.ok)] + k.stack)],
       signal := Pushed(w))
  }

  /** process_wal_completions: take the whole stack and restore its order. */
  function DoDetach(k: Worker): Worker
  {
    k.(detached := Rev(k.stack), stack := [], at := if k.stack == [] then Polling else Processing)
  }

  predicate WriterStep(a: G.Action)
  {
    a.Take? || a.EncodeFail? || a.Write? || a.WriteFail? || a.Sync? || a.Exit?
  }

  predicate RecoveryStep(a: G.Action)
  {
    a.Boot? || a.Truncate? || a.RepairSync?
  }

  function Set(s: State, w: nat, k: Worker): State
    requires w < |s.workers|
  {
    s.(workers := s.workers[w := k])
  }

  function Next(s: State, a: Action): State
  {
    match a
    case Writer(step) =>
      if WriterStep(step) && s.signal.Quiet? then s.(log := G.Next(s.log, step)) else s
    case Push =>
      if CanPush(s) then DoPush(s) else s
    case Exchange =>
      if s.signal.Pushed? && s.signal.worker < |s.workers| then
        var k := s.workers[s.signal.worker];
        Set(s, s.signal.worker, k.(flag := true)).(signal := if k.flag then Quiet else MustRing(s.signal.worker))
      else s
    case Ring =>
      if s.signal.MustRing? && s.signal.worker < |s.workers| then
        Set(s, s.signal.worker, s.workers[s.signal.worker].(eventfd := true)).(signal := Quiet)
      else s
    case Stop =>
      s.(log := G.Next(s.log, G.Stop))
    case Fail(crash) =>
      if crash.Kill? || crash.PowerLoss? then s.(log := G.Next(s.log, crash)) else s
    case Repair(step) =>
      if RecoveryStep(step) then s.(log := G.Next(s.log, step)) else s
    case Start(n) =>
      var l := G.Next(s.log, G.Action.Start);
      if s.log.mode.Recovering? && l.mode.Running? then
        State(l, seq(n, _ => FRESH), Quiet, Replay(map[], l.history), true, [], [], s.promised)
      else s
    case _ =>
      if s.log.mode.Running? && a.w < |s.workers| then WorkerNext(s, a) else s
  }

  predicate WorkerStep(a: Action)
  {
    !a.Writer? && !a.Push? && !a.Exchange? && !a.Ring? && !a.Stop? && !a.Fail? && !a.Repair? && !a.Start?
  }

  function WorkerNext(s: State, a: Action): State
    requires WorkerStep(a) && a.w < |s.workers|
  {
    var k := s.workers[a.w];
    match a
    case Accept(w, c) =>
      if Handling(k) && !k.draining && c !in k.conns then Set(s, w, k.(conns := k.conns[c := Conn(None, false)])) else s
    case Get(w, c, key) =>
      if CanGet(k, c) then DoGet(s, w, c, key) else s
    case Mutate(w, submit) =>
      if CanMutate(s, w, submit) then DoMutate(s, w, submit) else s
    case Close(w, c) =>
      if Handling(k) && c in k.conns then Set(s, w, k.(conns := CloseConn(k.conns, c))) else s
    case BeginDraining(w) =>
      if Handling(k) then Set(s, w, k.(conns := CloseAll(k.conns), draining := true)) else s
    case Wake(w) =>
      if !k.exited && k.at.Polling? && k.eventfd then Set(s, w, k.(at := Woken)) else s
    case Drain(w) =>
      if k.at.Woken? then Set(s, w, k.(at := Drained, eventfd := false)) else s
    case Clear(w) =>
      if k.at.Drained? then Set(s, w, k.(at := Cleared, flag := false)) else s
    case Detach(w) =>
      if k.at.Cleared? then Set(s, w, DoDetach(k)) else s
    case Process(w, alloc) =>
      if k.at.Processing? && k.detached != [] then DoProcess(s, w, alloc) else s
    case Leave(w) =>
      if k.at.Polling? && k.draining && k.pendingCount == 0 then Set(s, w, k.(exited := true, conns := map[])) else s
  }

  function Run(s: State, actions: seq<Action>): State
    decreases |actions|
  {
    if actions == [] then s else Run(Next(s, actions[0]), actions[1..])
  }
}
