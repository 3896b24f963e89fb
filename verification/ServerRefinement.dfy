/**
 The memory side of the server (src/main.c) takes steps of the server's state machine: a connection
 that answers a GET, that goes to the log with a mutation, or that is told what became of it, and a
 worker that takes over its stack of completions.
 */
module ServerRefinement {
  import opened Bytes
  import opened Options
  import opened Sequences
  import opened Server
  import C = Connection
  import S = CompletionStack
  import P = Protocol
  import HashTable
  import Mutation
  import G = GroupCommit

  /** The connection in memory waits for what the machine's connection waits for. */
  ghost predicate SameConn(c: C.Conn, k: Worker, id: nat)
    reads c`pending, c`ended
  {
    && id in k.conns && !k.conns[id].closing && !c.ended
    && (c.pending.None? <==> k.conns[id].pending.None?)
    && (c.pending.Some? ==> k.conns[id].pending.value.record == c.pending.value)
  }

  lemma GetIsAnswered(c: C.Conn)
    requires c.Valid() && !c.ended && c.executed != []
    requires c.executed[|c.executed| - 1].opcode == P.OP_GET
    ensures c.pending.None? && |c.replies| == |c.executed| == |c.seen|
    ensures var n := |c.executed| - 1;
            c.replies[n] == P.GetReply(c.seen[n], c.executed[n].key)
  {
    hide C.Frames, C.Replies;
    var n := |c.executed| - 1;
    assert c.RepliedOk(n);
  }

  /** A GET executed from the read buffer is the machine's GET, with the same reply. */
  method ExecuteGet(c: C.Conn, r: P.Request, n: nat, table: HashTable.Table, ghost s: State, ghost w: nat, ghost id: nat)
    returns (blocked: bool, ghost t: State)
    requires c.Valid() && c.pending.None? && P.DecodeRequest(c.rbuf[..c.rhave]) == P.Ok(r, n) && r.opcode == P.OP_GET
    requires table.Valid() && {c as object, c.rbuf, c.wbuf} !! table.Repr && table.M == s.table
    requires s.log.mode.Running? && w < |s.workers| && Handling(s.workers[w]) && !s.workers[w].draining
    requires SameConn(c, s.workers[w], id)
    modifies c, c.rbuf, c.wbuf
    ensures t == if blocked then s else Next(s, Get(w, id, r.key))
    ensures |t.workers| == |s.workers| && c.Valid() && SameConn(c, t.workers[w], id) && table.M == t.table
    ensures !blocked ==>
              && c.executed == old(c.executed) + [r] && |c.replies| == |c.executed|
              && t.said == s.said + [Got(w, id, r.key, c.replies[|c.replies| - 1], |s.effects|)]
  {
    hide C.Conn.Valid, P.DecodeRequest, HashTable.Table.Valid, P.GetReply;
    blocked := c.Execute(r, n, table, None);
    t := if blocked then s else Next(s, Get(w, id, r.key));
    if !blocked {
      GetIsAnswered(c);
    }
  }

  /** A mutation put on hold is the machine's request, under the sequence number the log gave it. */
  method Submit(c: C.Conn, r: P.Request, n: nat, table: HashTable.Table, sequence: u64,
                ghost s: State, ghost w: nat, ghost id: nat)
    returns (ghost t: State)
    requires c.Valid() && c.pending.None? && P.DecodeRequest(c.rbuf[..c.rhave]) == P.Ok(r, n) && r.opcode != P.OP_GET
    requires c.wfill + P.RESP_HEADER <= P.MAX_RESP && w < |s.workers| && sequence == s.log.nextSequence
    requires SameConn(c, s.workers[w], id) && CanMutate(s, w, G.Submit(r.opcode, r.key, r.val, w, id))
    modifies c`pending, c`rhave, c`executed, c`seen, c`submitted, c.rbuf
    ensures t == Next(s, Mutate(w, G.Submit(r.opcode, r.key, r.val, w, id)))
    ensures |t.workers| == |s.workers| && c.Valid() && SameConn(c, t.workers[w], id)
    ensures t.log.history == s.log.history + [c.pending.value]
  {
    hide C.Conn.Valid, P.DecodeRequest;
    t := Next(s, Mutate(w, G.Submit(r.opcode, r.key, r.val, w, id)));
    CanMutateRunning(s, w, G.Submit(r.opcode, r.key, r.val, w, id));
    c.Park(r, n, sequence, table.M);
  }

  lemma CanMutateRunning(s: State, w: nat, a: G.Action)
    requires CanMutate(s, w, a)
    ensures s.log.mode.Running?
  {
  }

  /** Telling a connection what became of its mutation is the machine's handling of the completion: the
      same effect on the table, and the same answer. */
  method Handle(c: C.Conn, table: HashTable.Table, logged: bool, memory: Mutation.Memory,
                ghost s: State, ghost w: nat)
    returns (ok: bool, ghost t: State)
    requires w < |s.workers| && s.workers[w].detached != [] && s.workers[w].at.Processing? && s.log.mode.Running?
    requires var k := s.workers[w];
             var d := k.detached[0];
             Listening(k, d.req.conn) && k.conns[d.req.conn].pending == Some(d.req) && SameConn(c, k, d.req.conn)
             && logged == d.ok
    requires c.Valid() && table.Valid() && {c as object, c.rbuf, c.wbuf} !! table.Repr && table.M == s.table
    modifies table.Repr, c`pending, c`wsent, c`wfill, c`replies, c`done, c.wbuf
    ensures t == Next(s, Process(w, ok))
    ensures ok <==> logged && Mutation.Fits(s.table, s.workers[w].detached[0].req.record, memory)
    ensures c.Valid() && table.Valid() && table.M == t.table
    ensures |t.workers| == |s.workers| && SameConn(c, t.workers[w], s.workers[w].detached[0].req.conn)
    ensures c.replies == old(c.replies) + [C.MutationReply(ok)]
    ensures t.said == s.said + [Told(s.workers[w].detached[0].req, ok, |t.effects|)]
  {
    hide C.Conn.Valid, HashTable.Table.Valid, C.MutationReply;
    ok := c.Complete(table, logged, memory);
    t := Next(s, Process(w, ok));
  }

  lemma GoneStep(s: State, w: nat, ok: bool)
    requires w < |s.workers| && s.workers[w].detached != [] && s.workers[w].at.Processing? && s.log.mode.Running?
    requires var k := s.workers[w];
             var d := k.detached[0];
             d.req.conn in k.conns && !Listening(k, d.req.conn) && ok == Lands(d, ok)
    ensures var t := Next(s, Process(w, ok));
            var d := s.workers[w].detached[0];
            && |t.workers| == |s.workers| && d.req.conn !in t.workers[w].conns
            && t.said == s.said && t.promised == s.promised
            && t.effects == (if ok then s.effects + [d.req] else s.effects)
            && t.table == if ok then Mutation.Apply(s.table, d.req.record) else s.table
  {
    hide Mutation.Apply;
  }

  /** A completion for a connection whose socket is gone, or of a worker that is draining: a durable
      mutation is applied all the same, nobody is told, and the connection is freed. */
  method HandleGone(c: C.Conn, table: HashTable.Table, logged: bool, memory: Mutation.Memory,
                    ghost s: State, ghost w: nat)
    returns (ok: bool, ghost t: State)
    requires w < |s.workers| && s.workers[w].detached != [] && s.workers[w].at.Processing? && s.log.mode.Running?
    requires var k := s.workers[w];
             var d := k.detached[0];
             && d.req.conn in k.conns && !Listening(k, d.req.conn)
             && c.pending == Some(d.req.record) && logged == d.ok
    requires c.Valid() && table.Valid() && {c as object, c.rbuf, c.wbuf} !! table.Repr && table.M == s.table
    modifies table.Repr
    ensures t == Next(s, Process(w, ok))
    ensures table.Valid() && table.M == t.table && ok == (|t.effects| > |s.effects|)
    ensures ok <==> logged && Mutation.Fits(s.table, c.pending.value, memory)
    ensures |t.workers| == |s.workers| && s.workers[w].detached[0].req.conn !in t.workers[w].conns
    ensures t.said == s.said && t.promised == s.promised
  {
    hide C.Conn.Valid, HashTable.Table.Valid, Next;
    c.PendingIsValid();
    ok := Mutation.Settle(table, c.pending.value, logged, memory);
    t := Next(s, Process(w, ok));
    GoneStep(s, w, ok);
  }

  /** Relinking the detached stack puts the connections in the order of the machine's detached list. */
  method Detach(top: S.Conn?, ghost list: seq<S.Conn>, ghost k: Worker, ghost done: S.Conn -> Done)
    returns (completed: S.Conn?)
    requires S.IsList(top, list) && |list| == |k.stack| && forall i :: 0 <= i < |list| ==> done(list[i]) == k.stack[i]
    modifies list
    ensures S.IsList(completed, Rev(list)) && |Rev(list)| == |DoDetach(k).detached|
    ensures forall i :: 0 <= i < |Rev(list)| ==> done(Rev(list)[i]) == DoDetach(k).detached[i]
  {
    hide Rev;
    RevAt(list, 0);
    RevAt(k.stack, 0);
    completed := S.Restore(top, list);
    forall i | 0 <= i < |list|
      ensures done(Rev(list)[i]) == Rev(k.stack)[i]
    {
      RevAt(list, i);
      RevAt(k.stack, i);
    }
  }
}
