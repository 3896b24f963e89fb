/**
 Threads sharing the table of src/hashtable.c: each operation holds its key's shard lock while it
 looks the key up, changes the chain and updates the shared counter, in separate steps that
 interleave with other threads' steps.
 */
module ShardLocks {
  import opened HashTable
  import opened Options

  datatype Op = Set(key: Key, val: Val) | Get(key: Key, cap: nat) | Del(key: Key)

  datatype Answer = Stored | OutOfMemory | Found(val: Val) | TooLarge | Missing | Deleted | BadKey

  /** Which allocation of a set fails, if any: the copy of the value, made before the lock is taken, or
      the new node, made under it. */
  datatype Memory = Enough | NoCopy | NoNode

  /** Where a thread is: before the lock, holding it, after the lookup, after the change but before
      the counter follows, after the counter, after the return. */
  datatype Stage =
    | Ready
    | Locked
    | Looked(seen: Option<Val>)
    | Changed(owed: int, answer: Answer)
    | Counted(answer: Answer)
    | Finished

  /** What a caller sees of one operation. */
  datatype Call = Call(op: Op, answer: Answer)

  /** `asked` and `returned` are the thread's program: the operations it has begun and the answers it
      has been given. */
  datatype Thread = Thread(op: Op, stage: Stage, asked: seq<Op>, returned: seq<Call>)

  datatype Event = Event(thread: nat, op: Op, memory: Memory, answer: Answer)

  /** `history` lists the operations in the order in which they changed or read their chain, or were
      refused before touching it. */
  datatype State = State(store: map<Key, Val>, count: int, threads: seq<Thread>, history: seq<Event>)

  datatype Action =
    | Refuse(i: nat)
    | Acquire(i: nat)
    | Find(i: nat)
    | Act(i: nat, alloc: bool)
    | Count(i: nat)
    | Release(i: nat)
    | Begin(i: nat, op: Op)

  function Lookup(m: map<Key, Val>, key: Key): Option<Val>
  {
    if key in m then Some(m[key]) else None
  }

  predicate Holds(t: Thread)
  {
    t.stage.Locked? || t.stage.Looked? || t.stage.Changed? || t.stage.Counted?
  }

  /** A shard's mutex is free when no thread working on that shard holds it. */
  predicate Free(threads: seq<Thread>, shard: nat)
  {
    forall j :: 0 <= j < |threads| ==> !(Holds(threads[j]) && ShardOf(threads[j].op.key) == shard)
  }

  // What one operation does by itself, and the store and counter change it makes.

  function AnswerTo(m: map<Key, Val>, op: Op, memory: Memory): Answer
  {
    if op.key == [] then BadKey else
      match op
      case Set(k, v) =>
        if |v| > 0 && memory.NoCopy? then OutOfMemory else if k in m || !memory.NoNode? then Stored else OutOfMemory
      case Get(k, cap) => if k !in m then Missing else if |m[k]| > cap then TooLarge else Found(m[k])
      case Del(k) => if k in m then Deleted else Missing
  }

  function StoreAfter(m: map<Key, Val>, op: Op, memory: Memory): map<Key, Val>
  {
    match AnswerTo(m, op, memory)
    case Stored => if op.Set? then m[op.key := op.val] else m
    case Deleted => m - {op.key}
    case _ => m
  }

  /** An operation refused before the lock: an empty key, or no memory for the copy of the value. */
  predicate Refusable(op: Op)
  {
    op.key == [] || (op.Set? && |op.val| > 0)
  }

  function Refusal(op: Op): Answer
  {
    if op.key == [] then BadKey else OutOfMemory
  }

  /** The rest decided from what the lookup saw, as the code does. */
  function AnswerFrom(seen: Option<Val>, op: Op, alloc: bool): Answer
  {
    match op
    case Set(_, _) => if seen.Some? || alloc then Stored else OutOfMemory
    case Get(_, cap) => if seen.None? then Missing else if |seen.value| > cap then TooLarge else Found(seen.value)
    case Del(_) => if seen.Some? then Deleted else Missing
  }

  function Delta(seen: Option<Val>, op: Op, alloc: bool): int
  {
    if op.Set? && seen.None? && alloc then 1 else if op.Del? && seen.Some? then -1 else 0
  }

  function Change(m: map<Key, Val>, seen: Option<Val>, op: Op, alloc: bool): map<Key, Val>
  {
    match op
    case Set(k, v) => if seen.Some? || alloc then m[k := v] else m
    case Get(_, _) => m
    case Del(k) => if seen.Some? then m - {k} else m
  }

  function MemoryOf(alloc: bool): Memory
  {
    if alloc then Enough else NoNode
  }

  function Return(t: Thread, answer: Answer): Thread
  {
    t.(stage := Finished, returned := t.returned + [Call(t.op, answer)])
  }

  function Next(s: State, a: Action): State
  {
    if a.i >= |s.threads| then s else
      var t := s.threads[a.i];
      match a
      case Refuse(i) =>
        if t.stage.Ready? && Refusable(t.op) then
          s.(threads := s.threads[i := Return(t, Refusal(t.op))],
             history := s.history + [Event(i, t.op, NoCopy, Refusal(t.op))])
        else s
      case Acquire(i) =>
        if t.stage.Ready? && t.op.key != [] && Free(s.threads, ShardOf(t.op.key))
        then s.(threads := s.threads[i := t.(stage := Locked)]) else s
      case Find(i) =>
        if t.stage.Locked? then s.(threads := s.threads[i := t.(stage := Looked(Lookup(s.store, t.op.key)))]) else s
      case Act(i, alloc) =>
        if t.stage.Looked? then
          var answer := AnswerFrom(t.stage.seen, t.op, alloc);
          s.(store := Change(s.store, t.stage.seen, t.op, alloc),
             threads := s.threads[i := t.(stage := Changed(Delta(t.stage.seen, t.op, alloc), answer))],
             history := s.history + [Event(i, t.op, MemoryOf(alloc), answer)])
        else s
      case Count(i) =>
        if t.stage.Changed?
        then s.(count := s.count + t.stage.owed, threads := s.threads[i := t.(stage := Counted(t.stage.answer))])
        else s
      case Release(i) =>
        if t.stage.Counted? then s.(threads := s.threads[i := Return(t, t.stage.answer)]) else s
      case Begin(i, op) =>
        if t.stage.Finished?
        then s.(threads := s.threads[i := t.(op := op, stage := Ready, asked := t.asked + [op])]) else s
  }

  function Run(s: State, actions: seq<Action>): State
    decreases |actions|
  {
    if actions == [] then s else Run(Next(s, actions[0]), actions[1..])
  }

  function Init(ops: seq<Op>): State
  {
    State(map[], 0, seq(|ops|, i requires 0 <= i < |ops| => Thread(ops[i], Ready, [ops[i]], [])), [])
  }

  // ------------------------------------------------------------ the invariant

  /** The store after running the history one operation at a time. */
  function SerialStore(h: seq<Event>): map<Key, Val>
  {
    if h == [] then map[] else StoreAfter(SerialStore(h[..|h| - 1]), h[|h| - 1].op, h[|h| - 1].memory)
  }

  /** Every answer is the one the operation gets when the history runs one operation at a time. */
  ghost predicate Serial(h: seq<Event>)
  {
    forall i :: 0 <= i < |h| ==> h[i].answer == AnswerTo(SerialStore(h[..i]), h[i].op, h[i].memory)
  }

  /** Counter updates still to come. */
  function Owed(threads: seq<Thread>): int
  {
    if threads == [] then 0 else
      var t := threads[|threads| - 1];
      Owed(threads[..|threads| - 1]) + if t.stage.Changed? then t.stage.owed else 0
  }

  /** The part of the history that is one thread's. */
  function Mine(h: seq<Event>, i: nat): seq<Call>
  {
    if h == [] then [] else
      var e := h[|h| - 1];
      Mine(h[..|h| - 1], i) + if e.thread == i then [Call(e.op, e.answer)] else []
  }

  function Ops(calls: seq<Call>): seq<Op>
  {
    seq(|calls|, i requires 0 <= i < |calls| => calls[i].op)
  }

  /** The operation a thread has taken effect with but not yet returned from. */
  function InFlight(t: Thread): seq<Call>
  {
    if t.stage.Changed? || t.stage.Counted? then [Call(t.op, t.stage.answer)] else []
  }

  /** A thread's answers are its part of the history up to the operation in flight, and its operations
      the ones it asked for, in order. */
  ghost predicate InStep(s: State, i: nat)
    requires i < |s.threads|
  {
    var t := s.threads[i];
    && Mine(s.history, i) == t.returned + InFlight(t)
    && t.asked == Ops(t.returned) + (if t.stage.Finished? then [] else [t.op])
    && (Holds(t) ==> t.op.key != [])
  }

  ghost predicate LookupsCurrent(s: State)
  {
    forall i :: 0 <= i < |s.threads| && s.threads[i].stage.Looked? ==>
      s.threads[i].stage.seen == Lookup(s.store, s.threads[i].op.key)
  }

  ghost predicate Exclusive(s: State)
  {
    forall i, j :: 0 <= i < j < |s.threads| && Holds(s.threads[i]) && Holds(s.threads[j]) ==>
      ShardOf(s.threads[i].op.key) != ShardOf(s.threads[j].op.key)
  }

  /** The serial part of the invariant: the store is the history's, and the counter follows. */
  ghost predicate Explained(s: State)
  {
    Serial(s.history) && s.store == SerialStore(s.history) && s.count + Owed(s.threads) == |s.store|
  }

  ghost predicate Inv(s: State)
  {
    && Explained(s)
    && Exclusive(s)
    && LookupsCurrent(s)
    && (forall i :: 0 <= i < |s.threads| ==> InStep(s, i))
  }

  function OwedBy(t: Thread): int
  {
    if t.stage.Changed? then t.stage.owed else 0
  }

  lemma {:induction false} OwedUpdate(threads: seq<Thread>, i: nat, t: Thread)
    requires i < |threads|
    ensures Owed(threads[i := t]) == Owed(threads) - OwedBy(threads[i]) + OwedBy(t)
  {
    var n := |threads| - 1;
    if i == n {
      assert threads[i := t][..n] == threads[..n];
    } else {
      assert threads[i := t][..n] == threads[..n][i := t];
      OwedUpdate(threads[..n], i, t);
    }
  }

  lemma AddedSize(m: map<Key, Val>, key: Key, val: Val)
    ensures |m[key := val]| == |m| + if key in m then 0 else 1
  {
    assert m[key := val].Keys == m.Keys + {key};
  }

  lemma AnswerDecided(m: map<Key, Val>, op: Op, alloc: bool)
    requires op.key != []
    ensures AnswerFrom(Lookup(m, op.key), op, alloc) == AnswerTo(m, op, MemoryOf(alloc))
  {
  }

  lemma StoreDecided(m: map<Key, Val>, op: Op, alloc: bool)
    requires op.key != []
    ensures Change(m, Lookup(m, op.key), op, alloc) == StoreAfter(m, op, MemoryOf(alloc))
  {
  }

  lemma CountDecided(m: map<Key, Val>, op: Op, alloc: bool)
    ensures |Change(m, Lookup(m, op.key), op, alloc)| == |m| + Delta(Lookup(m, op.key), op, alloc)
  {
    if op.Set? {
      AddedSize(m, op.key, op.val);
    } else {
      RemovedSize(m, op.key);
    }
  }

  /** Deciding from a lookup that is still current is deciding from the store. */
  lemma LookupDecides(m: map<Key, Val>, op: Op, alloc: bool)
    requires op.key != []
    ensures var seen := Lookup(m, op.key);
            && AnswerFrom(seen, op, alloc) == AnswerTo(m, op, MemoryOf(alloc))
            && Change(m, seen, op, alloc) == StoreAfter(m, op, MemoryOf(alloc))
            && |Change(m, seen, op, alloc)| == |m| + Delta(seen, op, alloc)
  {
    hide AnswerFrom, AnswerTo, Change, StoreAfter, Delta, Lookup;
    AnswerDecided(m, op, alloc);
    StoreDecided(m, op, alloc);
    CountDecided(m, op, alloc);
  }

  lemma SerialExtends(h: seq<Event>, e: Event)
    requires Serial(h) && e.answer == AnswerTo(SerialStore(h), e.op, e.memory)
    ensures Serial(h + [e])
    ensures SerialStore(h + [e]) == StoreAfter(SerialStore(h), e.op, e.memory)
  {
    hide AnswerTo, StoreAfter;
    var longer := h + [e];
    assert longer[..|h|] == h;
    forall i | 0 <= i < |longer|
      ensures longer[i].answer == AnswerTo(SerialStore(longer[..i]), longer[i].op, longer[i].memory)
    {
      if i < |h| {
        assert longer[..i] == h[..i];
      }
    }
  }

  lemma MineExtends(h: seq<Event>, e: Event, i: nat)
    ensures Mine(h + [e], i) == Mine(h, i) + if e.thread == i then [Call(e.op, e.answer)] else []
  {
    assert (h + [e])[..|h|] == h;
  }

  /** A step of thread i that puts at most one event of its own into the history leaves the others in step. */
  lemma OthersInStep(s: State, s': State, i: nat, j: nat)
    requires i < |s.threads| == |s'.threads| && j < |s.threads| && j != i && InStep(s, j)
    requires s'.threads[j] == s.threads[j]
    requires s'.history == s.history || exists e: Event :: e.thread == i && s'.history == s.history + [e]
    ensures InStep(s', j)
  {
    if s'.history != s.history {
      var e: Event :| e.thread == i && s'.history == s.history + [e];
      MineExtends(s.history, e, j);
    }
  }

  lemma OpsExtend(calls: seq<Call>, c: Call)
    ensures Ops(calls + [c]) == Ops(calls) + [c.op]
  {
  }

  /** The thread that moves stays in step with its own part of the history. */
  lemma SelfInStep(s: State, a: Action)
    requires a.i < |s.threads| && InStep(s, a.i)
    ensures InStep(Next(s, a), a.i)
  {
    hide ShardOf, Ops, Mine, Refusal, AnswerFrom, Change, Delta, Lookup, Free;
    var t := s.threads[a.i];
    var s' := Next(s, a);
    if s'.history != s.history {
      MineExtends(s.history, s'.history[|s.history|], a.i);
    }
    if s'.threads[a.i].returned != t.returned {
      OpsExtend(t.returned, s'.threads[a.i].returned[|t.returned|]);
    }
  }

  lemma StepsKeep(s: State, a: Action)
    requires a.i < |s.threads| && forall i :: 0 <= i < |s.threads| ==> InStep(s, i)
    ensures forall i :: 0 <= i < |s.threads| ==> InStep(Next(s, a), i)
  {
    hide InStep, ShardOf, AnswerFrom, Change, Delta, Lookup, Free;
    var s' := Next(s, a);
    SelfInStep(s, a);
    forall j | 0 <= j < |s.threads| && j != a.i
      ensures InStep(s', j)
    {
      OthersInStep(s, s', a.i, j);
    }
  }

  /** A change to one key leaves the lookups of threads on other shards current. */
  lemma LookupsStay(s: State, i: nat, alloc: bool, j: nat)
    requires i < |s.threads| && j < |s.threads| && i != j
    requires s.threads[i].stage.Looked? && s.threads[j].stage.Looked?
    requires ShardOf(s.threads[i].op.key) != ShardOf(s.threads[j].op.key)
    ensures Lookup(Change(s.store, s.threads[i].stage.seen, s.threads[i].op, alloc), s.threads[j].op.key)
         == Lookup(s.store, s.threads[j].op.key)
  {
    hide ShardOf;
  }

  lemma ActKeepsLookups(s: State, i: nat, alloc: bool)
    requires LookupsCurrent(s) && Exclusive(s) && i < |s.threads| && s.threads[i].stage.Looked?
    ensures LookupsCurrent(Next(s, Act(i, alloc))) && Exclusive(Next(s, Act(i, alloc)))
  {
    hide ShardOf, Lookup, Change, AnswerFrom, Delta;
    var s' := Next(s, Act(i, alloc));
    forall j | 0 <= j < |s'.threads| && s'.threads[j].stage.Looked?
      ensures s'.threads[j].stage.seen == Lookup(s'.store, s'.threads[j].op.key)
    {
      LookupsStay(s, i, alloc, j);
    }
  }

  lemma ActIsExplained(s: State, i: nat, alloc: bool)
    requires Explained(s) && LookupsCurrent(s) && i < |s.threads| && s.threads[i].stage.Looked?
    requires s.threads[i].op.key != []
    ensures Explained(Next(s, Act(i, alloc)))
  {
    hide Serial, SerialStore, Owed, AnswerTo, StoreAfter, Lookup, Change, AnswerFrom, Delta;
    var t, s' := s.threads[i], Next(s, Act(i, alloc));
    LookupDecides(s.store, t.op, alloc);
    SerialExtends(s.history, Event(i, t.op, MemoryOf(alloc), AnswerFrom(t.stage.seen, t.op, alloc)));
    OwedUpdate(s.threads, i, s'.threads[i]);
  }

  lemma ActKeeps(s: State, i: nat, alloc: bool)
    requires Inv(s) && i < |s.threads| && s.threads[i].stage.Looked?
    ensures Inv(Next(s, Act(i, alloc)))
  {
    assert s.threads[i].op.key != [] by { assert InStep(s, i); }
    StepsKeep(s, Act(i, alloc));
    hide LookupsCurrent, Exclusive, Explained, InStep;
    ActKeepsLookups(s, i, alloc);
    ActIsExplained(s, i, alloc);
    assert |Next(s, Act(i, alloc)).threads| == |s.threads|;
    hide Next;
  }

  lemma RefusalAnswers(m: map<Key, Val>, op: Op)
    requires Refusable(op)
    ensures AnswerTo(m, op, NoCopy) == Refusal(op) && StoreAfter(m, op, NoCopy) == m
  {
  }

  lemma RefuseKeeps(s: State, i: nat)
    requires Inv(s) && i < |s.threads| && s.threads[i].stage.Ready? && Refusable(s.threads[i].op)
    ensures Inv(Next(s, Refuse(i)))
  {
    var t := s.threads[i];
    StepsKeep(s, Refuse(i));
    hide ShardOf, Serial, SerialStore, Owed, InStep, AnswerTo, StoreAfter, Refusal, Lookup;
    RefusalAnswers(s.store, t.op);
    SerialExtends(s.history, Event(i, t.op, NoCopy, Refusal(t.op)));
    OwedUpdate(s.threads, i, Next(s, Refuse(i)).threads[i]);
  }

  lemma QuietIsExplained(s: State, a: Action)
    requires Explained(s) && a.i < |s.threads| && !a.Act? && !a.Refuse?
    ensures Explained(Next(s, a))
  {
    hide ShardOf, Serial, SerialStore, Owed, Lookup, Free;
    OwedUpdate(s.threads, a.i, Next(s, a).threads[a.i]);
    assert s.threads[a.i := s.threads[a.i]] == s.threads;
  }

  lemma QuietKeepsLookups(s: State, a: Action)
    requires LookupsCurrent(s) && Exclusive(s) && a.i < |s.threads| && !a.Act? && !a.Refuse?
    ensures LookupsCurrent(Next(s, a)) && Exclusive(Next(s, a))
  {
    hide ShardOf, Lookup;
  }

  /** The steps that put nothing into the history. */
  lemma QuietKeeps(s: State, a: Action)
    requires Inv(s) && a.i < |s.threads| && !a.Act? && !a.Refuse?
    ensures Inv(Next(s, a))
  {
    StepsKeep(s, a);
    assert |Next(s, a).threads| == |s.threads|;
    hide Next, Explained, LookupsCurrent, Exclusive, InStep;
    QuietIsExplained(s, a);
    QuietKeepsLookups(s, a);
  }

  lemma NextKeeps(s: State, a: Action)
    requires Inv(s)
    ensures Inv(Next(s, a))
  {
    hide Inv;
    if a.i < |s.threads| {
      var t := s.threads[a.i];
      if a.Act? {
        if t.stage.Looked? {
          ActKeeps(s, a.i, a.alloc);
        }
      } else if a.Refuse? {
        if t.stage.Ready? && Refusable(t.op) {
          RefuseKeeps(s, a.i);
        }
      } else {
        QuietKeeps(s, a);
      }
    }
  }

  lemma {:induction false} RunKeeps(s: State, actions: seq<Action>)
    requires Inv(s)
    ensures Inv(Run(s, actions)) && |Run(s, actions).threads| == |s.threads|
    decreases |actions|
  {
    hide Inv;
    if actions != [] {
      assert |Next(s, actions[0]).threads| == |s.threads|;
      hide Next;
      NextKeeps(s, actions[0]);
      RunKeeps(Next(s, actions[0]), actions[1..]);
    }
  }

  lemma {:induction false} NothingOwed(threads: seq<Thread>)
    requires forall i :: 0 <= i < |threads| ==> !threads[i].stage.Changed?
    ensures Owed(threads) == 0
  {
    if threads != [] {
      NothingOwed(threads[..|threads| - 1]);
    }
  }

  /** Serializability: in every interleaving there is one order of the operations, in which each takes
      effect while its thread is inside the call, such that running them one at a time in that order gives
      the store and gives every thread exactly the answers it was returned, once each and in the order it
      asked; and the counter is the number of keys whenever no thread is between its change and its
      counter update. */
  lemma EveryRunIsSerial(ops: seq<Op>, actions: seq<Action>)
    ensures var s := Run(Init(ops), actions);
            && Serial(s.history)
            && s.store == SerialStore(s.history)
            && |s.threads| == |ops|
            && (forall i :: 0 <= i < |ops| ==> Mine(s.history, i) == s.threads[i].returned + InFlight(s.threads[i]))
            && (forall i :: 0 <= i < |ops| ==>
                 s.threads[i].asked == Ops(s.threads[i].returned)
                                       + if s.threads[i].stage.Finished? then [] else [s.threads[i].op])
            && ((forall i :: 0 <= i < |s.threads| ==> !s.threads[i].stage.Changed?) ==> s.count == |s.store|)
  {
    var s := Run(Init(ops), actions);
    InitHolds(ops);
    RunKeeps(Init(ops), actions);
    assert |Init(ops).threads| == |ops|;
    hide Run, Next, Init, Serial, SerialStore, Owed, ShardOf, Mine, Ops, InFlight;
    forall i | 0 <= i < |ops|
      ensures Mine(s.history, i) == s.threads[i].returned + InFlight(s.threads[i])
      ensures s.threads[i].asked == Ops(s.threads[i].returned)
                                    + if s.threads[i].stage.Finished? then [] else [s.threads[i].op]
    {
      assert InStep(s, i);
    }
    if forall i :: 0 <= i < |s.threads| ==> !s.threads[i].stage.Changed? {
      NothingOwed(s.threads);
    }
  }

  lemma InitHolds(ops: seq<Op>)
    ensures Inv(Init(ops))
  {
    hide ShardOf;
    NothingOwed(Init(ops).threads);
  }

  // ------------------------------------------------------------ the operations are the table's

  /** Run by itself on the table of memory cells and chains, an operation answers and changes the table as it
      does here. */
  method Perform(table: Table, op: Op, memory: Memory) returns (answer: Answer)
    requires table.Valid()
    modifies table.Repr
    ensures table.Valid() && fresh(table.Repr - old(table.Repr))
    ensures answer == AnswerTo(old(table.M), op, memory)
    ensures table.M == StoreAfter(old(table.M), op, memory)
  {
    hide Table.Valid;
    match op
    case Set(key, val) =>
      var r := table.Set(key, val, !memory.NoCopy?, !memory.NoNode?);
      answer := if r.Ok? then Stored else if r.NoMem? then OutOfMemory else BadKey;
    case Get(key, cap) =>
      var r, val := table.Get(key, cap);
      answer := if r.Ok? then Found(val) else if r.NotFound? then Missing else if r.TooBig? then TooLarge else BadKey;
    case Del(key) =>
      var r := table.Del(key);
      answer := if r.Ok? then Deleted else if r.NotFound? then Missing else BadKey;
  }

  // ------------------------------------------------------------ no deadlock

  function Left(t: Thread): nat
  {
    match t.stage
    case Ready => 5
    case Locked => 4
    case Looked(_) => 3
    case Changed(_, _) => 2
    case Counted(_) => 1
    case Finished => 0
  }

  function AllLeft(threads: seq<Thread>): nat
  {
    if threads == [] then 0 else AllLeft(threads[..|threads| - 1]) + Left(threads[|threads| - 1])
  }

  lemma {:induction false} LeftUpdate(threads: seq<Thread>, i: nat, t: Thread)
    requires i < |threads|
    ensures AllLeft(threads[i := t]) == AllLeft(threads) - Left(threads[i]) + Left(t)
  {
    var n := |threads| - 1;
    if i == n {
      assert threads[i := t][..n] == threads[..n];
    } else {
      assert threads[i := t][..n] == threads[..n][i := t];
      LeftUpdate(threads[..n], i, t);
    }
  }

  /** A thread inside a lock can always go on, and with no lock held every thread can. */
  lemma SomeoneCanMove(s: State) returns (a: Action)
    requires exists i :: 0 <= i < |s.threads| && !s.threads[i].stage.Finished?
    ensures a.i < |s.threads| && !a.Begin?
    ensures |Next(s, a).threads| == |s.threads| && AllLeft(Next(s, a).threads) < AllLeft(s.threads)
  {
    hide ShardOf, Lookup, Change, AnswerFrom, Delta, AllLeft;
    if i: nat :| i < |s.threads| && Holds(s.threads[i]) {
      var t := s.threads[i];
      a := if t.stage.Locked? then Find(i) else if t.stage.Looked? then Act(i, true)
           else if t.stage.Changed? then Count(i) else Release(i);
    } else {
      var i :| 0 <= i < |s.threads| && !s.threads[i].stage.Finished?;
      a := if s.threads[i].op.key == [] then Refuse(i) else Acquire(i);
    }
    LeftUpdate(s.threads, a.i, Next(s, a).threads[a.i]);
  }

  /** From every state, in which whatever threads hold whatever locks, every operation begun can return. */
  lemma {:induction false} EveryCallCanReturn(s: State) returns (actions: seq<Action>)
    ensures forall i :: 0 <= i < |actions| ==> !actions[i].Begin?
    ensures var t := Run(s, actions);
            |t.threads| == |s.threads| && forall i :: 0 <= i < |t.threads| ==> t.threads[i].stage.Finished?
    decreases AllLeft(s.threads)
  {
    hide Next, AllLeft;
    if i: nat :| i < |s.threads| && !s.threads[i].stage.Finished? {
      var a := SomeoneCanMove(s);
      var rest := EveryCallCanReturn(Next(s, a));
      actions := [a] + rest;
    } else {
      actions := [];
    }
  }
}
