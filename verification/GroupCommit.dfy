/**
 The life of the log over whole runs (src/wal.c, and the start-up of src/main.c): any number
 of threads submit, one writer takes batches, writes them in pieces, syncs and completes
 them, and at any moment the process may be killed or the machine may lose power.

 `Next` is total: an action that cannot happen in a state leaves it alone, so a sequence of
 actions is any interleaving of what the threads, the kernel and the power supply can do.
 */
module GroupCommit {
  import opened Bytes
  import opened WalRecord
  import opened WalScan

  datatype Req = Req(record: Record, worker: nat, conn: nat)
  datatype Done = Done(req: Req, ok: bool)

  datatype Mode = Down | Recovering | Repairing | Running
  datatype Pc = Idle | Writing(written: nat) | Completing(ok: bool) | Exited

  datatype Log = Log(
    mode: Mode,
    // the disk: what the file holds, what it held at the last sync, what it held before it was cut
    // since then, and how many leading bytes no crash can take away
    file: seq<byte>, durable: seq<byte>, past: set<seq<byte>>, floor: nat,
    // the writer and its queue
    queue: seq<Req>, batch: seq<Req>, pc: Pc, sticky: bool, stopping: bool,
    nextSequence: u64, batchMax: nat,
    // history: the order of all mutations the log stands for, how many of them were recovered
    // at the last start, how many leading ones were ever completed without error, and the
    // requests accepted and completed since the last start
    history: seq<Record>, base: nat, acked: nat, accepted: seq<Req>, completed: seq<Done>)

  datatype Action =
    | Submit(opcode: byte, key: seq<byte>, val: seq<byte>, worker: nat, conn: nat)
    | Take
    | EncodeFail
    | Write(n: nat)
    | WriteFail
    | Sync(ok: bool)
    | Complete
    | Stop
    | Exit
    | Kill
    | PowerLoss(left: seq<byte>)
    | Boot
    | Truncate
    | RepairSync(ok: bool)
    | Start

  function Init(batchMax: nat): Log
    requires batchMax > 0
  {
    Log(Down, [], [], {}, 0, [], [], Idle, false, false, 1, batchMax, [], 0, 0, [], [])
  }

  function Records(rs: seq<Req>): (out: seq<Record>)
    ensures |out| == |rs|
    ensures forall i :: 0 <= i < |rs| ==> out[i] == rs[i].record
  {
    if rs == [] then [] else Records(rs[..|rs| - 1]) + [rs[|rs| - 1].record]
  }

  function Reqs(ds: seq<Done>): (out: seq<Req>)
    ensures |out| == |ds|
    ensures forall i :: 0 <= i < |ds| ==> out[i] == ds[i].req
  {
    if ds == [] then [] else Reqs(ds[..|ds| - 1]) + [ds[|ds| - 1].req]
  }

  // ------------------------------------------------------------ the steps

  /** pk_wal_submit: accepted requests are numbered consecutively and queued in that order. */
  predicate CanSubmit(l: Log, a: Action)
    requires a.Submit?
  {
    && l.mode.Running? && !l.stopping && l.nextSequence != 0
    && Record(a.opcode, l.nextSequence, a.key, a.val).Valid()
  }

  function Request(l: Log, a: Action): Req
    requires a.Submit?
  {
    Req(Record(a.opcode, l.nextSequence, a.key, a.val), a.worker, a.conn)
  }

  function DoSubmit(l: Log, a: Action): Log
    requires a.Submit? && CanSubmit(l, a)
  {
    var r := Request(l, a);
    l.(queue := l.queue + [r], accepted := l.accepted + [r], history := l.history + [r.record],
       nextSequence := if l.nextSequence == MAX_U64 then 0 else l.nextSequence + 1)
  }

  /** take_batch: up to batchMax requests off the front; a writer with a sticky error skips to
      completing them. */
  function DoTake(l: Log): Log
  {
    var n := if |l.queue| < l.batchMax then |l.queue| else l.batchMax;
    l.(batch := l.queue[..n], queue := l.queue[n..],
       pc := if l.sticky then Completing(false) else Writing(0))
  }

  function DoFail(l: Log): Log
  {
    l.(sticky := true, pc := Completing(false))
  }

  /** One write(2) of the encoded batch: any number of the bytes still owed. */
  function DoWrite(l: Log, n: nat): Log
    requires l.pc.Writing? && AllValid(Records(l.batch)) && l.pc.written + n <= |EncodeAll(Records(l.batch))|
  {
    var bytes := EncodeAll(Records(l.batch));
    l.(file := l.file + bytes[l.pc.written..l.pc.written + n], pc := Writing(l.pc.written + n))
  }

  function DoSync(l: Log): Log
  {
    l.(durable := l.file, past := {}, floor := |l.file|, pc := Completing(true))
  }

  /** complete_batch, one request at a time. */
  function DoComplete(l: Log): Log
    requires l.pc.Completing? && l.batch != []
  {
    var c := l.completed + [Done(l.batch[0], l.pc.ok)];
    l.(completed := c, batch := l.batch[1..],
       acked := if l.pc.ok then l.base + |c| else l.acked,
       pc := if |l.batch| == 1 then Idle else l.pc)
  }

  /** What a power loss can leave: any prefix of the file, of what the last sync saw or of what has been
      cut since, that keeps the bytes beyond its reach. */
  predicate CrashOutcome(l: Log, f: seq<byte>)
  {
    (f <= l.file || f <= l.durable || exists p :: p in l.past && f <= p) && l.floor <= |f|
  }

  function DoPowerLoss(l: Log, f: seq<byte>): Log
  {
    l.(mode := Down, file := f, durable := f, past := {}, floor := |f|)
  }

  function DoTruncate(l: Log): Log
    requires ScanFrom(l.file, 0).valid <= |l.file|
  {
    var valid := ScanFrom(l.file, 0).valid;
    l.(mode := Repairing, file := l.file[..valid], past := l.past + {l.file},
       floor := if l.floor < valid then l.floor else valid)
  }

  /** The server starts on what recovery accepted; earlier history beyond it is gone. */
  function DoStart(l: Log): Log
  {
    var s := ScanFrom(l.file, 0);
    l.(mode := Running, history := s.records, base := |s.records|,
       nextSequence := if s.last == MAX_U64 then 0 else s.last + 1,
       queue := [], batch := [], pc := Idle, sticky := false, stopping := false, accepted := [], completed := [])
  }

  function Next(l: Log, a: Action): Log
  {
    match a
    case Submit(_, _, _, _, _) =>
      if CanSubmit(l, a) then DoSubmit(l, a) else l
    case Take =>
      if l.mode.Running? && l.pc.Idle? && l.queue != [] then DoTake(l) else l
    case EncodeFail =>
      if l.mode.Running? && l.pc == Writing(0) then DoFail(l) else l
    case Write(n) =>
      if l.mode.Running? && l.pc.Writing? && AllValid(Records(l.batch))
         && 0 < n && l.pc.written + n <= |EncodeAll(Records(l.batch))| then DoWrite(l, n) else l
    case WriteFail =>
      if l.mode.Running? && l.pc.Writing? then DoFail(l) else l
    case Sync(ok) =>
      if l.mode.Running? && l.pc.Writing? && AllValid(Records(l.batch))
         && l.pc.written == |EncodeAll(Records(l.batch))|
      then if ok then DoSync(l) else DoFail(l)
      else l
    case Complete =>
      if l.mode.Running? && l.pc.Completing? && l.batch != [] then DoComplete(l) else l
    case Stop =>
      if l.mode.Running? then l.(stopping := true) else l
    case Exit =>
      if l.mode.Running? && l.pc.Idle? && l.stopping && l.queue == [] then l.(pc := Exited) else l
    case Kill =>
      l.(mode := Down)
    case PowerLoss(left) =>
      if CrashOutcome(l, left) then DoPowerLoss(l, left) else l
    case Boot =>
      if l.mode.Down? then l.(mode := Recovering) else l
    case Truncate =>
      ScanShape(l.file, 0);
      if l.mode.Recovering? && !ScanFrom(l.file, 0).repair.NoRepair? then DoTruncate(l) else l
    case RepairSync(ok) =>
      if !l.mode.Repairing? then l
      else if ok then l.(mode := Recovering, durable := l.file, past := {}, floor := |l.file|)
      else l.(mode := Down)
    case Start =>
      if l.mode.Recovering? && ScanFrom(l.file, 0).repair.NoRepair? && ScanFrom(l.file, 0).last != MAX_U64
      then DoStart(l) else l
  }

  function Run(l: Log, actions: seq<Action>): Log
    decreases |actions|
  {
    if actions == [] then l else Run(Next(l, actions[0]), actions[1..])
  }
}
