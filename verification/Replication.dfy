/**
 Replicated writes in a cluster of data nodes (node/grpc_shim/main.cpp): a Put stores locally,
 forwards to the shard's replicas, and with require_replica_acks waits for them. Any number of Puts
 run at once, on any nodes; deliveries, results and timeouts come in any order or not at all.
 */
module Replication {
  import opened Options
  import Chunked

  type Addr = string
  type Bytestring = Chunked.Bytestring

  const UNARY_LIMIT: nat := 4 * 1024 * 1024

  datatype Request = Request(key: Bytestring, value: Bytestring, fromReplication: bool, required: nat)

  /** ReplicaPlan: what the node's topology view says about the key's shard. */
  datatype Plan = Plan(enabled: bool, haveTopology: bool, isPrimary: bool, targets: seq<Addr>)

  datatype Status = Good | InvalidArgument | EngineError | DeadlineExceeded

  /** One forward to one target: the Put it became there, if it arrived, and the outcome reported back. */
  datatype Send = Send(served: Option<nat>, settled: Option<bool>)

  /** One Put being handled by one node; `origin` is the Put and forward it came from. */
  datatype Put = Put(origin: Option<(nat, nat)>, node: Addr, req: Request, targets: seq<Addr>,
                     stored: bool, sends: seq<Send>, completed: nat, acked: nat, answer: Option<Status>)

  datatype State = State(puts: seq<Put>)

  datatype Action =
    | Client(node: Addr, req: Request, plan: Plan, engineOk: bool)
    | Serve(o: nat, i: nat, plan: Plan, engineOk: bool)
    | Settle(o: nat, i: nat, ok: bool)
    | Respond(o: nat, timedOut: bool)

  // ------------------------------------------------------------ one node handles one Put

  /** RefuseUnachievableAcks. */
  predicate Achievable(plan: Plan, required: nat)
  {
    plan.enabled && plan.haveTopology && plan.isPrimary && required <= |plan.targets|
  }

  predicate Admits(req: Request, plan: Plan)
  {
    && Chunked.ValidKey(req.key)
    && |req.value| <= UNARY_LIMIT
    && (!req.fromReplication && req.required > 0 ==> Achievable(plan, req.required))
  }

  /** Put: refuse before anything is stored, store, and then answer at once, or answer at once and
      forward in the background, or forward and wait. A forwarded copy is never forwarded again. */
  function Handle(origin: Option<(nat, nat)>, node: Addr, req: Request, plan: Plan, engineOk: bool): Put
  {
    if !Admits(req, plan) then
      Put(origin, node, req, [], false, [], 0, 0, Some(InvalidArgument))
    else if !engineOk then
      Put(origin, node, req, [], false, [], 0, 0, Some(EngineError))
    else if req.fromReplication then
      Put(origin, node, req, [], true, [], 0, 0, Some(Good))
    else
      Put(origin, node, req, plan.targets, true, seq(|plan.targets|, _ => Send(None, None)), 0, 0,
          if req.required == 0 then Some(Good) else None)
  }

  // ------------------------------------------------------------ the cluster

  predicate CanServe(s: State, o: nat, i: nat)
  {
    o < |s.puts| && i < |s.puts[o].sends| && i < |s.puts[o].targets| && s.puts[o].sends[i].served.None?
  }

  function DoServe(s: State, o: nat, i: nat, plan: Plan, engineOk: bool): State
    requires CanServe(s, o, i)
  {
    var p := s.puts[o];
    var copy := Request(p.req.key, p.req.value, true, 0);
    State(s.puts[o := p.(sends := p.sends[i := p.sends[i].(served := Some(|s.puts|))])]
          + [Handle(Some((o, i)), p.targets[i], copy, plan, engineOk)])
  }

  /** A forward reports success only when the target answered OK; failures and timeouts any time. */
  predicate CanSettle(s: State, o: nat, i: nat, ok: bool)
  {
    && o < |s.puts| && i < |s.puts[o].sends| && s.puts[o].sends[i].settled.None?
    && (ok ==>
         && s.puts[o].sends[i].served.Some? && s.puts[o].sends[i].served.value < |s.puts|
         && s.puts[s.puts[o].sends[i].served.value].answer == Some(Good))
  }

  /** Complete: the fan-out counts the outcome. */
  function DoSettle(s: State, o: nat, i: nat, ok: bool): State
    requires CanSettle(s, o, i, ok)
  {
    var p := s.puts[o];
    State(s.puts[o := p.(sends := p.sends[i := p.sends[i].(settled := Some(ok))],
                         completed := p.completed + 1,
                         acked := p.acked + if ok then 1 else 0)])
  }

  /** ForwardAndWait returns and Put answers: on enough acks, when every forward is done, or when the
      time is up. */
  predicate CanRespond(s: State, o: nat, timedOut: bool)
  {
    && o < |s.puts| && s.puts[o].answer.None?
    && (s.puts[o].acked >= s.puts[o].req.required || s.puts[o].completed >= |s.puts[o].sends| || timedOut)
  }

  function DoRespond(s: State, o: nat): State
    requires o < |s.puts|
  {
    var p := s.puts[o];
    State(s.puts[o := p.(answer := Some(if p.acked >= p.req.required then Good else DeadlineExceeded))])
  }

  function Next(s: State, a: Action): State
  {
    match a
    case Client(node, req, plan, engineOk) => State(s.puts + [Handle(None, node, req, plan, engineOk)])
    case Serve(o, i, plan, engineOk) => if CanServe(s, o, i) then DoServe(s, o, i, plan, engineOk) else s
    case Settle(o, i, ok) => if CanSettle(s, o, i, ok) then DoSettle(s, o, i, ok) else s
    case Respond(o, timedOut) => if CanRespond(s, o, timedOut) then DoRespond(s, o) else s
  }

  function Run(s: State, actions: seq<Action>): State
    decreases |actions|
  {
    if actions == [] then s else Run(Next(s, actions[0]), actions[1..])
  }

  // ------------------------------------------------------------ the invariant

  /** How many forwards were reported successful. */
  function Successes(sends: seq<Send>): (n: nat)
    ensures n <= |sends|
  {
    if sends == [] then 0 else
      Successes(sends[..|sends| - 1]) + if sends[|sends| - 1].settled == Some(true) then 1 else 0
  }

  function Settled(sends: seq<Send>): (n: nat)
    ensures n <= |sends|
  {
    if sends == [] then 0 else
      Settled(sends[..|sends| - 1]) + if sends[|sends| - 1].settled.Some? then 1 else 0
  }

  /** The Put that send i of Put o became at its target. */
  ghost predicate IsCopy(s: State, o: nat, i: nat, c: nat)
    requires o < |s.puts| && i < |s.puts[o].targets|
  {
    && o < c < |s.puts|
    && s.puts[c].origin == Some((o, i))
    && s.puts[c].node == s.puts[o].targets[i]
    && s.puts[c].req == Request(s.puts[o].req.key, s.puts[o].req.value, true, 0)
  }

  ghost predicate PutInv(s: State, o: nat)
    requires o < |s.puts|
  {
    var p := s.puts[o];
    && |p.sends| == |p.targets|
    && (p.req.fromReplication || !p.stored ==> p.sends == [])
    && (p.answer == Some(InvalidArgument) || p.answer == Some(EngineError) <==> !p.stored)
    && (p.origin.Some? ==> p.req.fromReplication)
    && (p.stored ==> 0 < |p.req.key| <= 65536 && |p.req.value| <= 4194304)
    && (p.answer.None? ==> p.req.required > 0)
    && p.acked == Successes(p.sends)
    && p.completed == Settled(p.sends)
    && (p.answer == Some(Good) && !p.req.fromReplication ==> p.acked >= p.req.required)
    && (forall i :: 0 <= i < |p.sends| && p.sends[i].served.Some? ==> IsCopy(s, o, i, p.sends[i].served.value))
    && (forall i :: 0 <= i < |p.sends| && p.sends[i].settled == Some(true) ==>
         p.sends[i].served.Some? && s.puts[p.sends[i].served.value].stored)
    && (p.origin.Some? ==>
         && p.origin.value.0 < o && p.origin.value.1 < |s.puts[p.origin.value.0].sends|
         && s.puts[p.origin.value.0].sends[p.origin.value.1].served == Some(o))
  }

  ghost predicate Inv(s: State)
  {
    forall o :: 0 <= o < |s.puts| ==> PutInv(s, o)
  }

  lemma {:induction false} CountUpdate(sends: seq<Send>, i: nat, x: Send)
    requires i < |sends|
    ensures Successes(sends[i := x]) == Successes(sends) - (if sends[i].settled == Some(true) then 1 else 0)
                                        + (if x.settled == Some(true) then 1 else 0)
    ensures Settled(sends[i := x]) == Settled(sends) - (if sends[i].settled.Some? then 1 else 0)
                                      + (if x.settled.Some? then 1 else 0)
  {
    var n := |sends| - 1;
    if i == n {
      assert sends[i := x][..n] == sends[..n];
    } else {
      assert sends[i := x][..n] == sends[..n][i := x];
      CountUpdate(sends[..n], i, x);
    }
  }

  lemma {:induction false} CountFresh(sends: seq<Send>)
    requires forall i :: 0 <= i < |sends| ==> sends[i].settled.None?
    ensures Successes(sends) == Settled(sends) == 0
  {
    if sends != [] {
      CountFresh(sends[..|sends| - 1]);
    }
  }

  /** A new Put at the end does not concern the others. */
  lemma AppendKeeps(s: State, p: Put, o: nat)
    requires o < |s.puts| && PutInv(s, o)
    ensures PutInv(State(s.puts + [p]), o)
  {
    hide Successes, Settled;
  }

  lemma ClientKeeps(s: State, node: Addr, req: Request, plan: Plan, engineOk: bool)
    requires Inv(s)
    ensures Inv(Next(s, Client(node, req, plan, engineOk)))
  {
    hide Successes, Settled, Admits, PutInv;
    var p := Handle(None, node, req, plan, engineOk);
    var t := State(s.puts + [p]);
    forall o | 0 <= o < |t.puts|
      ensures PutInv(t, o)
    {
      if o < |s.puts| {
        AppendKeeps(s, p, o);
      } else {
        FreshPut(s, None, node, req, plan, engineOk);
      }
    }
  }

  lemma FreshPut(s: State, origin: Option<(nat, nat)>, node: Addr, req: Request, plan: Plan, engineOk: bool)
    requires origin.Some? ==> req.fromReplication
    requires origin.Some? ==>
               && origin.value.0 < |s.puts| && origin.value.1 < |s.puts[origin.value.0].sends|
               && s.puts[origin.value.0].sends[origin.value.1].served == Some(|s.puts|)
    ensures PutInv(State(s.puts + [Handle(origin, node, req, plan, engineOk)]), |s.puts|)
  {
    hide Successes, Settled;
    CountFresh(Handle(origin, node, req, plan, engineOk).sends);
  }

  lemma ServeKeeps(s: State, o: nat, i: nat, plan: Plan, engineOk: bool)
    requires Inv(s) && CanServe(s, o, i)
    ensures Inv(DoServe(s, o, i, plan, engineOk))
  {
    hide Successes, Settled, Admits;
    var p := s.puts[o];
    var t := DoServe(s, o, i, plan, engineOk);
    var mid := State(s.puts[o := t.puts[o]]);
    var copy := Request(p.req.key, p.req.value, true, 0);
    assert PutInv(s, o);
    CountUpdate(p.sends, i, p.sends[i].(served := Some(|s.puts|)));
    FreshPut(mid, Some((o, i)), p.targets[i], copy, plan, engineOk);
    forall q | 0 <= q < |s.puts|
      ensures PutInv(t, q)
    {
      assert PutInv(s, q);
    }
  }

  lemma SettleKeeps(s: State, o: nat, i: nat, ok: bool)
    requires Inv(s) && CanSettle(s, o, i, ok)
    ensures Inv(DoSettle(s, o, i, ok))
  {
    hide Successes, Settled, Admits;
    var p := s.puts[o];
    var t := DoSettle(s, o, i, ok);
    assert PutInv(s, o);
    CountUpdate(p.sends, i, p.sends[i].(settled := Some(ok)));
    forall q | 0 <= q < |s.puts|
      ensures PutInv(t, q)
    {
      assert PutInv(s, q);
      if ok {
        assert PutInv(s, p.sends[i].served.value);
      }
    }
  }

  lemma RespondKeeps(s: State, o: nat)
    requires Inv(s) && o < |s.puts| && s.puts[o].answer.None?
    ensures Inv(DoRespond(s, o))
  {
    hide Successes, Settled, Admits;
    var t := DoRespond(s, o);
    forall q | 0 <= q < |s.puts|
      ensures PutInv(t, q)
    {
      assert PutInv(s, q);
    }
  }

  lemma NextKeeps(s: State, a: Action)
    requires Inv(s)
    ensures Inv(Next(s, a))
  {
    hide Inv, CanServe, CanSettle, DoServe, DoSettle, DoRespond, Handle;
    match a
    case Client(node, req, plan, engineOk) => ClientKeeps(s, node, req, plan, engineOk);
    case Serve(o, i, plan, engineOk) => if CanServe(s, o, i) { ServeKeeps(s, o, i, plan, engineOk); }
    case Settle(o, i, ok) => if CanSettle(s, o, i, ok) { SettleKeeps(s, o, i, ok); }
    case Respond(o, timedOut) => if CanRespond(s, o, timedOut) { RespondKeeps(s, o); }
  }

  lemma {:induction false} RunKeeps(s: State, actions: seq<Action>)
    requires Inv(s)
    ensures Inv(Run(s, actions))
    decreases |actions|
  {
    hide Inv, Next;
    if actions != [] {
      NextKeeps(s, actions[0]);
      RunKeeps(Next(s, actions[0]), actions[1..]);
    }
  }

  // ------------------------------------------------------------ what it means

  ghost predicate Reachable(s: State)
  {
    exists actions :: s == Run(State([]), actions)
  }

  lemma ReachableInv(s: State)
    requires Reachable(s)
    ensures Inv(s)
  {
    hide Inv, Run;
    var actions :| s == Run(State([]), actions);
    assert Inv(State([])) by { EmptyInv(); }
    RunKeeps(State([]), actions);
  }

  lemma EmptyInv()
    ensures Inv(State([]))
  {
  }

  /** The copies Put o caused at other nodes that were stored there. */
  ghost function Copies(s: State, o: nat): set<nat>
  {
    set c | 0 <= c < |s.puts| && s.puts[c].stored && s.puts[c].origin.Some? && s.puts[c].origin.value.0 == o
  }

  ghost function Holders(s: State, o: nat): set<Addr>
  {
    set c | c in Copies(s, o) :: s.puts[c].node
  }

  predicate NoRepeats(targets: seq<Addr>)
  {
    forall i, j :: 0 <= i < j < |targets| ==> targets[i] != targets[j]
  }

  function AckedAt(sends: seq<Send>): set<nat>
  {
    set i | 0 <= i < |sends| && sends[i].settled == Some(true)
  }

  lemma {:induction false} AckedCount(sends: seq<Send>)
    ensures |AckedAt(sends)| == Successes(sends)
  {
    if sends == [] {
      assert AckedAt(sends) == {};
    } else {
      var n := |sends| - 1;
      AckedCount(sends[..n]);
      assert AckedAt(sends) == AckedAt(sends[..n]) + if sends[n].settled == Some(true) then {n} else {};
    }
  }

  function Entries(targets: seq<Addr>, at: set<nat>): set<Addr>
    requires forall i :: i in at ==> i < |targets|
  {
    set i | i in at :: targets[i]
  }

  /** Distinct indices of a list without repeats are distinct entries. */
  lemma {:induction false} DistinctEntries(targets: seq<Addr>, at: set<nat>)
    requires NoRepeats(targets) && forall i :: i in at ==> i < |targets|
    ensures |Entries(targets, at)| == |at|
    decreases |at|
  {
    if at == {} {
      assert Entries(targets, at) == {};
    } else {
      var x :| x in at;
      var rest := at - {x};
      DistinctEntries(targets, rest);
      assert Entries(targets, at) == Entries(targets, rest) + {targets[x]};
      assert targets[x] !in Entries(targets, rest);
    }
  }

  lemma Subset<T>(a: set<T>, b: set<T>)
    requires a <= b
    ensures |a| <= |b|
  {
    assert b == a + (b - a);
  }

  /** A strong-ack Put answers OK only if that many of its forwards were stored at their targets; with no
      address listed twice, those are that many different nodes holding this key and value. */
  lemma StrongAck(s: State, o: nat)
    requires Reachable(s) && o < |s.puts|
    requires !s.puts[o].req.fromReplication && s.puts[o].answer == Some(Good)
    ensures |AckedAt(s.puts[o].sends)| >= s.puts[o].req.required
    ensures forall i :: i in AckedAt(s.puts[o].sends) ==>
              exists c :: c in Copies(s, o) && i < |s.puts[o].targets| && IsCopy(s, o, i, c)
    ensures NoRepeats(s.puts[o].targets) ==> |Holders(s, o)| >= s.puts[o].req.required
  {
    hide Successes, Settled, Run;
    ReachableInv(s);
    var p := s.puts[o];
    assert PutInv(s, o);
    AckedCount(p.sends);
    forall i | i in AckedAt(p.sends)
      ensures exists c :: c in Copies(s, o) && i < |p.targets| && IsCopy(s, o, i, c)
      ensures p.targets[i] in Holders(s, o)
    {
      var c := p.sends[i].served.value;
      assert IsCopy(s, o, i, c) && s.puts[c].stored;
      assert c in Copies(s, o);
    }
    if NoRepeats(p.targets) {
      DistinctEntries(p.targets, AckedAt(p.sends));
      Subset(Entries(p.targets, AckedAt(p.sends)), Holders(s, o));
    }
  }

  /** One hop only: a copy is never forwarded again, so every Put is a client's or a copy of a client's,
      and one client Put is stored at most once here and once per target. */
  lemma AtMostOneStorePerTarget(s: State, o: nat)
    requires Reachable(s) && o < |s.puts|
    ensures s.puts[o].origin.Some? ==>
              && s.puts[o].sends == []
              && s.puts[o].origin.value.0 < o && s.puts[s.puts[o].origin.value.0].origin.None?
    ensures |Copies(s, o)| <= |s.puts[o].targets|
  {
    hide Successes, Settled, Run;
    ReachableInv(s);
    assert PutInv(s, o);
    if s.puts[o].origin.Some? {
      assert PutInv(s, s.puts[o].origin.value.0);
    }
    forall c | c in Copies(s, o)
      ensures s.puts[c].origin.value.1 < |s.puts[o].sends|
      ensures s.puts[o].sends[s.puts[c].origin.value.1].served == Some(c)
    {
      assert PutInv(s, c);
    }
    Injects(Copies(s, o), s.puts[o].sends);
  }

  lemma {:induction false} Injects(cs: set<nat>, sends: seq<Send>)
    requires forall c :: c in cs ==> exists i :: 0 <= i < |sends| && sends[i].served == Some(c)
    ensures |cs| <= |sends|
    decreases |sends|
  {
    if sends == [] {
      assert cs == {};
    } else {
      var n := |sends| - 1;
      var last := if sends[n].served.Some? then {sends[n].served.value} else {};
      forall c | c in cs - last
        ensures exists i :: 0 <= i < |sends[..n]| && sends[..n][i].served == Some(c)
      {
        var i :| 0 <= i < |sends| && sends[i].served == Some(c);
        assert sends[..n][i].served == Some(c);
      }
      Injects(cs - last, sends[..n]);
      Subset(cs, (cs - last) + last);
    }
  }

  /** A refused Put, or one the local engine failed, stores nothing anywhere. */
  lemma RefusedStoresNothing(s: State, o: nat)
    requires Reachable(s) && o < |s.puts|
    requires s.puts[o].answer == Some(InvalidArgument) || s.puts[o].answer == Some(EngineError)
    ensures !s.puts[o].stored && Copies(s, o) == {}
  {
    hide Successes, Settled, Run, Copies;
    ReachableInv(s);
    AtMostOneStorePerTarget(s, o);
    assert PutInv(s, o);
  }

  // ------------------------------------------------------------ when it answers, and what

  /** A request that asks for the impossible: a key or value out of bounds, or acks of a node that does not
      replicate, knows no topology, is not the primary or has too few replicas. */
  predicate Impossible(req: Request, plan: Plan)
  {
    || |req.key| == 0 || |req.key| > 65536 || |req.value| > 4194304
    || (!req.fromReplication && req.required > 0
        && (!plan.enabled || !plan.haveTopology || !plan.isPrimary || |plan.targets| < req.required))
  }

  /** A client's Put is refused exactly if it is impossible, and then nothing is stored. Otherwise it is
      stored if the engine takes it, forwarded to every target unless it is itself a forward, and answered at
      once unless it waits for acks. */
  lemma ClientAnswer(s: State, node: Addr, req: Request, plan: Plan, engineOk: bool)
    ensures var p := Next(s, Client(node, req, plan, engineOk)).puts[|s.puts|];
            && p.answer == (if Impossible(req, plan) then Some(InvalidArgument)
                            else if !engineOk then Some(EngineError)
                            else if req.fromReplication || req.required == 0 then Some(Good)
                            else None)
            && (p.stored <==> !Impossible(req, plan) && engineOk)
            && p.targets == (if p.stored && !req.fromReplication then plan.targets else [])
            && |p.sends| == |p.targets| && (forall i :: 0 <= i < |p.sends| ==> p.sends[i] == Send(None, None))
            && p.node == node && p.req == req && p.origin == None
  {
  }

  /** A forward that arrives is stored exactly if the engine there takes it, and answered accordingly. */
  lemma ForwardAnswer(s: State, o: nat, i: nat, plan: Plan, engineOk: bool)
    requires Reachable(s) && CanServe(s, o, i)
    ensures var p := Next(s, Serve(o, i, plan, engineOk)).puts[|s.puts|];
            && p.answer == Some(if engineOk then Good else EngineError)
            && (p.stored <==> engineOk)
            && p.node == s.puts[o].targets[i] && p.origin == Some((o, i)) && p.sends == []
            && p.req == Request(s.puts[o].req.key, s.puts[o].req.value, true, 0)
  {
    hide Run, Successes, Settled;
    ReachableInv(s);
    assert PutInv(s, o);
  }

  lemma {:induction false} AllSettled(sends: seq<Send>)
    ensures Settled(sends) == |sends| <==> forall i :: 0 <= i < |sends| ==> sends[i].settled.Some?
  {
    if sends != [] {
      var n := |sends| - 1;
      AllSettled(sends[..n]);
      assert sends == sends[..n] + [sends[n]];
    }
  }

  /** A waiting Put is answered OK as soon as enough forwards have succeeded, however many others are still
      out; without them it is answered when the last forward is done or the time is up, and then the
      deadline was exceeded. */
  lemma AckAnswer(s: State, o: nat, timedOut: bool)
    requires Reachable(s) && o < |s.puts| && s.puts[o].answer.None?
    ensures var p := s.puts[o];
            var answer := if |AckedAt(p.sends)| >= p.req.required then Some(Good)
                          else if timedOut || forall i :: 0 <= i < |p.sends| ==> p.sends[i].settled.Some?
                          then Some(DeadlineExceeded)
                          else None;
            Next(s, Respond(o, timedOut)) == State(s.puts[o := p.(answer := answer)])
  {
    hide Run, Successes, Settled, AckedAt;
    ReachableInv(s);
    var p := s.puts[o];
    assert PutInv(s, o);
    AckedCount(p.sends);
    AllSettled(p.sends);
    assert s.puts[o := p] == s.puts;
  }

  /** An answer is final. */
  lemma AnswerStays(s: State, a: Action, o: nat)
    requires o < |s.puts| && s.puts[o].answer.Some?
    ensures var t := Next(s, a);
            o < |t.puts| && t.puts[o].answer == s.puts[o].answer && t.puts[o].stored == s.puts[o].stored
  {
    hide Handle;
  }

  // ------------------------------------------------------------ a target listed twice

  lemma {:induction false} RunExtends(s: State, actions: seq<Action>, a: Action)
    ensures Run(s, actions + [a]) == Next(Run(s, actions), a)
    decreases |actions|
  {
    hide Next;
    if actions == [] {
      assert [a][1..] == [];
    } else {
      assert (actions + [a])[1..] == actions[1..] + [a];
      RunExtends(Next(s, actions[0]), actions[1..], a);
    }
  }

  lemma ReachableNext(s: State, a: Action)
    requires Reachable(s)
    ensures Reachable(Next(s, a))
  {
    hide Run, Next;
    var actions :| s == Run(State([]), actions);
    RunExtends(State([]), actions, a);
  }

  const SAMPLE: Bytestring := [1]

  /** A Put of the sample key that asks every target for an ack, after the first k have acked. */
  function Waiting(targets: seq<Addr>, k: nat): Put
    requires k <= |targets|
  {
    Put(None, "primary", Request(SAMPLE, SAMPLE, false, |targets|), targets, true,
        seq(|targets|, (i: nat) => if i < k then Send(Some(1 + i), Some(true)) else Send(None, None)), k, k, None)
  }

  lemma {:induction false} AllAck(targets: seq<Addr>, k: nat) returns (s: State)
    requires k <= |targets| && targets != []
    ensures Reachable(s) && |s.puts| == 1 + k && s.puts[0] == Waiting(targets, k)
  {
    hide Reachable;
    var plan := Plan(true, true, true, targets);
    if k == 0 {
      s := Next(State([]), Client("primary", Request(SAMPLE, SAMPLE, false, |targets|), plan, true));
      assert Reachable(State([])) by { StartReachable(); }
      ReachableNext(State([]), Client("primary", Request(SAMPLE, SAMPLE, false, |targets|), plan, true));
    } else {
      var t := AllAck(targets, k - 1);
      var u := Next(t, Serve(0, k - 1, plan, true));
      ReachableNext(t, Serve(0, k - 1, plan, true));
      s := Next(u, Settle(0, k - 1, true));
      ReachableNext(u, Settle(0, k - 1, true));
      assert s.puts[0].sends == Waiting(targets, k).sends;
    }
  }

  lemma StartReachable()
    ensures Reachable(State([]))
  {
    assert Run(State([]), []) == State([]);
  }

  function Addresses(targets: seq<Addr>): set<Addr>
  {
    set i | 0 <= i < |targets| :: targets[i]
  }

  lemma AddressesGrow(targets: seq<Addr>)
    requires targets != []
    ensures var n := |targets| - 1;
            var rest := Addresses(targets[..n]);
            && Addresses(targets) == (if targets[n] in targets[..n] then rest else rest + {targets[n]})
            && |Addresses(targets)| <= |rest| + 1
  {
  }

  lemma {:induction false} AddressCount(targets: seq<Addr>)
    ensures |Addresses(targets)| <= |targets|
    ensures !NoRepeats(targets) ==> |Addresses(targets)| < |targets|
  {
    if targets == [] {
      assert Addresses(targets) == {};
    } else {
      var n := |targets| - 1;
      AddressCount(targets[..n]);
      AddressesGrow(targets);
    }
  }

  /** The copies of a Put are at its targets. */
  lemma HoldersAreTargets(s: State, o: nat)
    requires Reachable(s) && o < |s.puts|
    ensures Holders(s, o) <= Addresses(s.puts[o].targets)
  {
    hide Successes, Settled, Run;
    ReachableInv(s);
    assert PutInv(s, o);
    forall a | a in Holders(s, o)
      ensures a in Addresses(s.puts[o].targets)
    {
      var c :| c in Copies(s, o) && s.puts[c].node == a;
      assert PutInv(s, c);
      var i := s.puts[c].origin.value.1;
      assert IsCopy(s, o, i, c);
    }
  }

  /** Acks count forwards, not nodes: if the list names an address twice, OK can be answered with fewer
      nodes holding the value than the caller asked for. */
  lemma RepeatedTargetUndercounts(targets: seq<Addr>) returns (s: State)
    requires !NoRepeats(targets)
    ensures Reachable(s) && |s.puts| > 0 && s.puts[0].targets == targets && !s.puts[0].req.fromReplication
    ensures s.puts[0].answer == Some(Good) && |Holders(s, 0)| < s.puts[0].req.required
  {
    hide Reachable, Holders;
    var t := AllAck(targets, |targets|);
    s := Next(t, Respond(0, false));
    ReachableNext(t, Respond(0, false));
    HoldersAreTargets(s, 0);
    AddressCount(targets);
    Subset(Holders(s, 0), Addresses(targets));
  }

  ghost predicate AcksAreNodes(targets: seq<Addr>)
  {
    forall s, o :: Reachable(s) && 0 <= o < |s.puts| && s.puts[o].targets == targets
                   && !s.puts[o].req.fromReplication && s.puts[o].answer == Some(Good) ==>
      |Holders(s, o)| >= s.puts[o].req.required
  }

  /** So an OK promises that many different nodes exactly for target lists without repeats. */
  lemma AcksAreNodesIffNoRepeats(targets: seq<Addr>)
    ensures AcksAreNodes(targets) <==> NoRepeats(targets)
  {
    hide Reachable, Holders;
    if NoRepeats(targets) {
      forall s, o | Reachable(s) && 0 <= o < |s.puts| && s.puts[o].targets == targets
                    && !s.puts[o].req.fromReplication && s.puts[o].answer == Some(Good)
        ensures |Holders(s, o)| >= s.puts[o].req.required
      {
        StrongAck(s, o);
      }
    } else {
      var s := RepeatedTargetUndercounts(targets);
    }
  }
}
