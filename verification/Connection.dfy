/**
 One client connection (src/main.c): frames parsed out of a read buffer, responses queued in a
 write buffer, and a pause at each mutation until the log has answered.
 */
module Connection {
  import opened Bytes
  import opened Protocol
  import opened Buffers
  import HashTable
  import opened Options
  import Mutation
  import W = WalRecord

  type Store = Mutation.Store

  // ------------------------------------------------------------ what the byte streams mean

  predicate AllRequests(rs: seq<Request>)
  {
    forall i :: 0 <= i < |rs| ==> rs[i].Valid()
  }

  predicate AllResponses(rs: seq<Response>)
  {
    forall i :: 0 <= i < |rs| ==> rs[i].Valid()
  }

  function Frames(rs: seq<Request>): seq<byte>
    requires AllRequests(rs)
  {
    if rs == [] then [] else Frames(rs[..|rs| - 1]) + EncodeRequest(rs[|rs| - 1])
  }

  function Replies(rs: seq<Response>): seq<byte>
    requires AllResponses(rs)
  {
    if rs == [] then [] else Replies(rs[..|rs| - 1]) + EncodeResponse(rs[|rs| - 1])
  }

  /** The frames of a whole byte stream, up to its first incomplete or malformed one. */
  function Parse(stream: seq<byte>): seq<Request>
    decreases |stream|
  {
    match DecodeRequest(stream)
    case Ok(r, n) =>
      EncodeDecodeRequest(stream);
      [r] + Parse(stream[n..])
    case _ => []
  }

  lemma FramesExtend(rs: seq<Request>, r: Request)
    requires AllRequests(rs) && r.Valid()
    ensures Frames(rs + [r]) == Frames(rs) + EncodeRequest(r)
  {
    assert (rs + [r])[..|rs|] == rs;
  }

  lemma RepliesExtend(rs: seq<Response>, r: Response)
    requires AllResponses(rs) && r.Valid()
    ensures Replies(rs + [r]) == Replies(rs) + EncodeResponse(r)
  {
    assert (rs + [r])[..|rs|] == rs;
  }

  /** Parsing undoes framing, whatever follows. */
  lemma {:induction false} ParseFrames(rs: seq<Request>, rest: seq<byte>)
    requires AllRequests(rs)
    ensures Parse(Frames(rs) + rest) == rs + Parse(rest)
    decreases |rs|
  {
    hide DecodeRequest, EncodeRequest;
    if rs == [] {
      assert Frames(rs) + rest == rest;
    } else {
      var n := |rs| - 1;
      var r := rs[n];
      assert Frames(rs) + rest == Frames(rs[..n]) + (EncodeRequest(r) + rest);
      ParseFrames(rs[..n], EncodeRequest(r) + rest);
      DecodeEncodeRequest(r, rest);
      assert (EncodeRequest(r) + rest)[r.Size()..] == rest;
      assert rs[..n] + ([r] + Parse(rest)) == rs + Parse(rest);
    }
  }

  /** The log record of a mutation. */
  function RecordOf(r: Request, sequence: u64): W.Record
  {
    W.Record(r.opcode, sequence, r.key, r.val)
  }

  /** What became of a mutation given to the log: whether it was durable and the table took it, and the
      table's map before and after. */
  datatype Outcome = Outcome(record: W.Record, ok: bool, before: Store, after: Store)

  /** What a read meets behind the bytes that have arrived. */
  datatype Behind = WouldBlock | EndOfFile | ReadError

  /** What becomes of a write: the kernel takes some bytes, pushes back, or the connection is broken. */
  datatype Writing = Takes(n: nat) | PushesBack | Breaks

  /** The answer to a mutation. */
  function MutationReply(ok: bool): (r: Response)
    ensures r.Valid() && r.Size() == RESP_HEADER
  {
    Response(if ok then STATUS_OK else STATUS_ERROR, [])
  }

  /** The room the answer to a frame takes. */
  function AnswerSize(m: Store, r: Request): nat
  {
    if r.opcode == OP_GET then GetReply(m, r.key).Size() else RESP_HEADER
  }

  // ------------------------------------------------------------ the connection

  class Conn {
    const rbuf: array<byte>
    var rhave: nat
    const wbuf: array<byte>
    var wsent: nat
    var wfill: nat
    var pending: Option<W.Record>
    var readStalled: bool

    // history: the bytes read from and written to the socket, the frames taken out of the read
    // buffer, the responses queued, the table's map when each frame was taken, which frames went to the
    // log and what became of those, and whether a malformed frame has ended the connection
    ghost var received: seq<byte>
    ghost var sent: seq<byte>
    ghost var executed: seq<Request>
    ghost var replies: seq<Response>
    ghost var seen: seq<Store>
    ghost var submitted: seq<nat>
    ghost var done: seq<Outcome>
    ghost var ended: bool

    /** Everything read is the executed frames followed by what the read buffer still holds. */
    ghost predicate ReadOk()
      reads this`rhave, this`executed, this`received, rbuf
    {
      && rbuf.Length == MAX_REQ && rhave <= MAX_REQ
      && AllRequests(executed)
      && received == Frames(executed) + rbuf[..rhave]
    }

    /** Everything sent, followed by what the write buffer still owes, is the queued responses. */
    ghost predicate WriteOk()
      reads this`wsent, this`wfill, this`replies, this`sent, wbuf
    {
      && wbuf.Length == MAX_RESP && wsent <= wfill <= MAX_RESP
      && AllResponses(replies)
      && sent + wbuf[wsent..wfill] == Replies(replies)
    }

    /** Reply i is the one to frame i: what the map held for a GET; ERROR for a mutation the log did not
        accept. */
    ghost predicate RepliedOk(i: nat)
      requires i < |executed| && i < |replies| && i < |seen|
      reads this`executed, this`replies, this`seen, this`submitted
    {
      if executed[i].opcode == OP_GET then replies[i] == GetReply(seen[i], executed[i].key)
      else i in submitted || replies[i] == MutationReply(false)
    }

    /** The k-th mutation given to the log is that of its frame; it was applied to the table if and only if
        the answer is OK. */
    ghost predicate SettledOk(k: nat)
      requires k < |done| <= |submitted|
      reads this`executed, this`replies, this`submitted, this`done
    {
      var i, d := submitted[k], done[k];
      && i < |executed| && i < |replies|
      && d.record == RecordOf(executed[i], d.record.sequence)
      && d.after == (if d.ok then Mutation.Apply(d.before, d.record) else d.before)
      && replies[i] == MutationReply(d.ok)
    }

    /** One response per executed frame, in order, except that the frame the log is busy with has
        none yet and a malformed end may add one ERROR. No frame went to the log twice, and only
        mutations did. The reply of a pending mutation fits. */
    ghost predicate LedgerOk()
      reads this`wfill, this`pending, this`executed, this`replies, this`seen, this`submitted, this`done,
            this`ended
    {
      && |seen| == |executed|
      && (if pending.Some? then |executed| == |replies| + 1 && !ended
          else if ended then |executed| <= |replies| <= |executed| + 1
          else |replies| == |executed|)
      && (|replies| > |executed| ==> replies[|executed|] == MutationReply(false))
      && (forall i :: 0 <= i < |replies| && i < |executed| ==> RepliedOk(i))
      && (forall i :: 0 <= i < |submitted| ==> submitted[i] < |executed| && executed[submitted[i]].opcode != OP_GET)
      && (forall i, j :: 0 <= i < j < |submitted| ==> submitted[i] < submitted[j])
      && |submitted| == |done| + (if pending.Some? then 1 else 0)
      && (forall k :: 0 <= k < |done| ==> SettledOk(k))
      && (pending.Some? ==>
           && submitted[|submitted| - 1] == |executed| - 1
           && pending.value == RecordOf(executed[|executed| - 1], pending.value.sequence)
           && wfill + RESP_HEADER <= MAX_RESP)
    }

    /** Entries of the ledger hold for good. */
    twostate lemma HistoryStays()
      requires old(LedgerOk())
      requires old(executed) <= executed && old(replies) <= replies && old(seen) <= seen
      requires old(submitted) <= submitted && old(done) <= done
      ensures |old(done)| <= |submitted| && |old(replies)| <= |replies|
      ensures forall i :: 0 <= i < |old(replies)| && i < |old(executed)| && i < |seen| ==> RepliedOk(i)
      ensures forall k :: 0 <= k < |old(done)| && |done| <= |submitted| ==> SettledOk(k)
    {
      forall i | 0 <= i < |old(replies)| && i < |old(executed)| && i < |seen|
        ensures RepliedOk(i)
      {
        assert old(RepliedOk(i));
        if i in old(submitted) {
          var k :| 0 <= k < |old(submitted)| && old(submitted[k]) == i;
          assert submitted[k] == i;
        }
      }
      forall k | 0 <= k < |old(done)| && |done| <= |submitted|
        ensures SettledOk(k)
      {
        assert old(SettledOk(k));
      }
    }

    ghost predicate Valid()
      reads this, rbuf, wbuf
    {
      rbuf != wbuf && ReadOk() && WriteOk() && LedgerOk()
    }

    constructor ()
      ensures Valid() && pending.None? && !ended && rhave == 0
      ensures received == sent == [] && executed == [] && replies == [] && seen == []
      ensures fresh(rbuf) && fresh(wbuf)
    {
      rbuf := new byte[MAX_REQ];
      wbuf := new byte[MAX_RESP];
      rhave, wsent, wfill, pending, readStalled := 0, 0, 0, None, false;
      received, sent, executed, replies, seen, submitted, done, ended := [], [], [], [], [], [], [], false;
    }

    // ---------------------------------------------------------- the write side

    /** wbuf_compact: slides the unsent bytes to the front. */
    method Compact()
      requires rbuf != wbuf && WriteOk()
      modifies this`wsent, this`wfill, wbuf
      ensures WriteOk() && wsent == 0 && wfill == old(wfill - wsent)
    {
      hide Replies;
      if wsent == 0 {
        return;
      }
      Slide(wbuf, wsent, wfill);
      wfill := wfill - wsent;
      wsent := 0;
    }

    /** queue_response: appends the encoded response, compacting first if it would not fit. */
    method QueueResponse(r: Response) returns (ok: bool)
      requires rbuf != wbuf && WriteOk() && r.Valid()
      modifies this`wsent, this`wfill, this`replies, wbuf
      ensures WriteOk()
      ensures ok <==> old(wfill - wsent) + r.Size() <= MAX_RESP
      ensures replies == if ok then old(replies) + [r] else old(replies)
      ensures wfill <= old(wfill) + if ok then r.Size() else 0
      ensures !ok ==> wfill - wsent == old(wfill - wsent)
    {
      hide Replies, EncodeResponse;
      if MAX_RESP - wfill < r.Size() {
        Compact();
      }
      if MAX_RESP - wfill < r.Size() {
        return false;
      }
      ghost var owed := wbuf[wsent..wfill];
      PutResponse(r);
      RepliesExtend(replies, r);
      assert sent + (owed + EncodeResponse(r)) == sent + owed + EncodeResponse(r);
      replies := replies + [r];
      wfill := wfill + r.Size();
      return true;
    }

    /** Encodes the response behind the bytes already owed. */
    method PutResponse(r: Response)
      requires wbuf.Length == MAX_RESP && wsent <= wfill && wfill + r.Size() <= MAX_RESP && r.Valid()
      modifies wbuf
      ensures wbuf[wsent..wfill + r.Size()] == old(wbuf[wsent..wfill]) + EncodeResponse(r)
    {
      hide Splice, EncodeResponse;
      ghost var was := wbuf[..];
      StartSplice(was, wfill);
      assert [] + EncodeResponse(r) == EncodeResponse(r);
      Append(wbuf, wfill, EncodeResponse(r), was, wfill, []);
      SplicedBehind(was, wsent, wfill, EncodeResponse(r));
      assert wbuf[wsent..wfill + r.Size()] == wbuf[..][wsent..wfill + r.Size()];
    }

    /** conn_flush: writes until everything owed is sent, unless the kernel pushes back or the connection
        breaks; wire(k) is what becomes of the write after k bytes. */
    method Flush(wire: nat -> Writing) returns (alive: bool)
      requires Valid()
      modifies this`wsent, this`wfill, this`sent
      ensures Valid() && old(sent) <= sent
      ensures wsent < wfill ==> var outcome := wire(|sent| - |old(sent)|);
                                if alive then outcome.PushesBack? else outcome.Breaks? || outcome == Takes(0)
      ensures wsent >= wfill ==> alive && wsent == wfill == 0 && sent == Replies(replies)
      ensures old(wsent == wfill) ==> wsent == wfill && sent == old(sent)
    {
      hide Replies, ReadOk, WriteOk;
      alive := Send(wire);
      HistoryStays();
    }

    method Send(wire: nat -> Writing) returns (alive: bool)
      requires WriteOk()
      modifies this`wsent, this`wfill, this`sent
      ensures WriteOk() && old(sent) <= sent && wfill <= old(wfill)
      ensures wsent < wfill ==> var outcome := wire(|sent| - |old(sent)|);
                                if alive then outcome.PushesBack? else outcome.Breaks? || outcome == Takes(0)
      ensures wsent >= wfill ==> alive && wsent == wfill == 0 && sent == Replies(replies)
      ensures old(wsent == wfill) ==> wsent == wfill && sent == old(sent)
    {
      hide Replies;
      var k := 0;
      while wsent < wfill
        invariant WriteOk() && wfill == old(wfill) && old(sent) <= sent && |sent| == |old(sent)| + k
        decreases wfill - wsent
      {
        var outcome := wire(k);
        if !outcome.Takes? || outcome.n == 0 {
          return outcome.PushesBack?;
        }
        var n := if outcome.n > wfill - wsent then wfill - wsent else outcome.n;
        assert wbuf[wsent..wfill] == wbuf[wsent..wsent + n] + wbuf[wsent + n..wfill];
        sent := sent + wbuf[wsent..wsent + n];
        wsent := wsent + n;
        k := k + n;
      }
      assert wbuf[wsent..wfill] == [];
      wsent, wfill := 0, 0;
      assert wbuf[wsent..wfill] == [];
      return true;
    }

    // ---------------------------------------------------------- the read side

    /** conn_consume: takes the frame at the front out of the read buffer. */
    method Consume(r: Request, n: nat)
      requires rbuf != wbuf && ReadOk() && DecodeRequest(rbuf[..rhave]) == Ok(r, n)
      modifies this`rhave, this`executed, rbuf
      ensures ReadOk() && executed == old(executed) + [r] && rhave < old(rhave) && r.Valid()
    {
      hide DecodeRequest, EncodeRequest, Frames;
      ghost var bytes := rbuf[..rhave];
      EncodeDecodeRequest(bytes);
      FramesExtend(executed, r);
      assert bytes == EncodeRequest(r) + rbuf[n..rhave];
      assert Frames(executed) + bytes == Frames(executed) + EncodeRequest(r) + rbuf[n..rhave];
      Slide(rbuf, n, rhave);
      rhave := rhave - n;
      executed := executed + [r];
    }

    /** A frame that is answered at once: the response is queued and the frame consumed together. */
    method AnswerNow(r: Request, n: nat, reply: Response, ghost store: Store) returns (ok: bool)
      requires Valid() && pending.None? && !ended && DecodeRequest(rbuf[..rhave]) == Ok(r, n)
      requires reply.Valid()
      requires if r.opcode == OP_GET then reply == GetReply(store, r.key) else reply == MutationReply(false)
      modifies this`wsent, this`wfill, this`replies, wbuf, this`rhave, this`executed, this`seen, rbuf
      ensures Valid()
      ensures ok <==> old(wfill - wsent) + reply.Size() <= MAX_RESP
      ensures ok ==> executed == old(executed) + [r] && replies == old(replies) + [reply] && rhave < old(rhave)
      ensures seen == if ok then old(seen) + [store] else old(seen)
      ensures !ok ==>
                && executed == old(executed) && replies == old(replies)
                && rhave == old(rhave) && rbuf[..] == old(rbuf[..]) && wfill - wsent == old(wfill - wsent)
    {
      hide DecodeRequest, ReadOk, WriteOk;
      ok := QueueResponse(reply);
      if ok {
        Consume(r, n);
        seen := seen + [store];
      }
      HistoryStays();
    }

    /** A mutation handed to the log under a sequence number: its frame is consumed, its record is kept
        and its answer is owed. */
    method Park(r: Request, n: nat, sequence: u64, ghost store: Store)
      requires Valid() && pending.None? && !ended && DecodeRequest(rbuf[..rhave]) == Ok(r, n)
      requires r.opcode != OP_GET && wfill + RESP_HEADER <= MAX_RESP
      modifies this`pending, this`rhave, this`executed, this`seen, this`submitted, rbuf
      ensures Valid() && pending == Some(RecordOf(r, sequence)) && seen == old(seen) + [store]
      ensures executed == old(executed) + [r] && submitted == old(submitted) + [|old(executed)|] && rhave < old(rhave)
    {
      hide DecodeRequest, ReadOk, WriteOk;
      Consume(r, n);
      seen := seen + [store];
      submitted := submitted + [|executed| - 1];
      pending := Some(RecordOf(r, sequence));
      HistoryStays();
    }

    /** Makes room for a mutation's fixed-size reply before anything is consumed. */
    method Reserve() returns (ok: bool)
      requires Valid() && pending.None?
      modifies this`wsent, this`wfill, wbuf
      ensures Valid() && wfill - wsent == old(wfill - wsent)
      ensures ok <==> old(wfill - wsent) + RESP_HEADER <= MAX_RESP
      ensures ok ==> wfill + RESP_HEADER <= MAX_RESP
    {
      hide ReadOk, Replies;
      if MAX_RESP - wfill < RESP_HEADER {
        Compact();
      }
      ok := MAX_RESP - wfill >= RESP_HEADER;
    }

    /** A malformed frame: one last ERROR if it fits, and no more frames are read. */
    method Reject()
      requires Valid() && pending.None? && !ended
      modifies this`wsent, this`wfill, this`replies, this`ended, wbuf
      ensures Valid() && ended
      ensures replies == old(replies) + if old(wfill - wsent) + RESP_HEADER <= MAX_RESP
                                        then [MutationReply(false)] else []
    {
      hide ReadOk, WriteOk;
      var ok := QueueResponse(MutationReply(false));
      ended := true;
      HistoryStays();
    }

    /** One frame of conn_process: a GET is answered from the table, a mutation goes to the log or, refused
        there, is answered ERROR; without room for the answer nothing happens. The log's answer is a sequence
        number or nothing. */
    method Execute(r: Request, n: nat, table: HashTable.Table, log: Option<u64>) returns (blocked: bool)
      requires Valid() && !ended && pending.None? && DecodeRequest(rbuf[..rhave]) == Ok(r, n)
      requires table.Valid() && {this as object, rbuf, wbuf} !! table.Repr
      modifies this, rbuf, wbuf
      ensures Valid() && !ended && received == old(received) && sent == old(sent) && readStalled == old(readStalled)
      ensures done == old(done)
      ensures old(submitted) <= submitted
      ensures |old(executed)| in submitted <==> !blocked && r.opcode != OP_GET && log.Some?
      ensures forall i :: i < |old(executed)| ==> (i in submitted <==> i in old(submitted))
      ensures pending == if !blocked && r.opcode != OP_GET && log.Some? then Some(RecordOf(r, log.value)) else None
      ensures blocked <==> old(wfill - wsent) + AnswerSize(table.M, r) > MAX_RESP
      ensures blocked ==> wfill - wsent == old(wfill - wsent) && rhave == old(rhave) && rbuf[..] == old(rbuf[..])
      ensures if blocked then executed == old(executed) && replies == old(replies) && seen == old(seen)
              else executed == old(executed) + [r] && old(replies) <= replies && seen == old(seen) + [table.M]
      ensures if blocked then pending.None? && DecodeRequest(rbuf[..rhave]) == Ok(r, n) else rhave < old(rhave)
    {
      hide Valid, DecodeRequest, HashTable.Table.Valid;
      InBuffer();
      SubmittedBefore();
      EncodeDecodeRequest(rbuf[..rhave]);
      if r.opcode == OP_GET {
        var reply := Lookup(table, r.key);
        var ok := AnswerNow(r, n, reply, table.M);
        return !ok;
      }
      var ok := Reserve();
      if !ok {
        return true;
      }
      if log.Some? {
        Park(r, n, log.value, table.M);
        return false;
      }
      ok := AnswerNow(r, n, MutationReply(false), table.M);
      return !ok;
    }

    /** Of the frames taken since, each mutation went to the log exactly if the log accepted it; log(k) is the
        log's answer to the k-th of them. */
    ghost predicate AsLogged(since: nat, log: nat -> Option<u64>)
      reads this`executed, this`submitted
    {
      forall i :: since <= i < |executed| && executed[i].opcode != OP_GET ==>
                    (i in submitted <==> log(i - since).Some?)
    }

    /** A whole frame waits in the read buffer for room in the write buffer. */
    ghost predicate Parked()
      reads this`pending, this`ended, this`rhave, rbuf
    {
      pending.None? && !ended && rhave <= rbuf.Length && DecodeRequest(rbuf[..rhave]).Ok?
    }

    /** The write buffer has no room for the answer to the frame that waits. */
    ghost predicate Full(m: Store)
      reads this`rhave, this`wsent, this`wfill, rbuf
    {
      && rhave <= rbuf.Length && DecodeRequest(rbuf[..rhave]).Ok?
      && wfill - wsent + AnswerSize(m, DecodeRequest(rbuf[..rhave]).frame) > MAX_RESP
    }

    /** A whole frame waits although nothing is left to be written that could wake the connection. */
    ghost predicate Stranded()
      reads this`pending, this`ended, this`rhave, this`wsent, this`wfill, rbuf
    {
      Parked() && wsent == wfill
    }

    /** conn_process: executes whole frames until one is incomplete, one is malformed, the write
        buffer is full, or a mutation has gone to the log. Counts the frames on from `count`. */
    method Process(table: HashTable.Table, log: nat -> Option<u64>, count: nat, ghost since: nat)
      returns (alive: bool, count': nat)
      requires Valid() && !ended
      requires |executed| == since + count && AsLogged(since, log)
      requires table.Valid() && {this as object, rbuf, wbuf} !! table.Repr
      modifies this, rbuf, wbuf
      ensures Valid() && table.Valid()
      ensures received == old(received) && sent == old(sent) && readStalled == old(readStalled)
      ensures old(executed) <= executed && old(replies) <= replies && old(seen) <= seen
      ensures old(submitted) <= submitted && done == old(done)
      ensures |executed| == since + count' && AsLogged(since, log)
      ensures forall i :: |old(seen)| <= i < |seen| ==> seen[i] == table.M
      ensures old(pending).Some? ==>
                alive && pending == old(pending) && executed == old(executed) && replies == old(replies)
      ensures alive <==> !ended
      ensures pending.None? ==> (alive <==> !DecodeRequest(rbuf[..rhave]).Error?)
      ensures ended ==> pending.None?
      ensures Parked() ==> Full(table.M)
      ensures old(Stranded()) ==> |executed| > |old(executed)|
    {
      hide Valid, DecodeRequest, HashTable.Table.Valid;
      count' := count;
      while pending.None?
        invariant Valid() && !ended && table.Valid()
        invariant received == old(received) && sent == old(sent) && readStalled == old(readStalled)
        invariant old(executed) <= executed && old(replies) <= replies && old(seen) <= seen
        invariant old(submitted) <= submitted && done == old(done)
        invariant |executed| == since + count' && AsLogged(since, log)
        invariant forall i :: |old(seen)| <= i < |seen| ==> seen[i] == table.M
        invariant old(pending).Some? ==> pending == old(pending) && executed == old(executed) && replies == old(replies)
        invariant |executed| > |old(executed)| || (rhave == old(rhave) && rbuf[..] == old(rbuf[..])
                                                   && wfill - wsent == old(wfill - wsent) && pending == old(pending))
        decreases rhave
      {
        InBuffer();
        var decoded := DecodeRequest(rbuf[..rhave]);
        match decoded
        case Incomplete =>
          return true, count';
        case Error =>
          Reject();
          return false, count';
        case Ok(r, n) =>
          var full := Execute(r, n, table, log(count'));
          if full {
            return true, count';
          }
          count' := count' + 1;
      }
      return true, count';
    }

    lemma NoneLogged(log: nat -> Option<u64>)
      ensures AsLogged(|executed|, log)
    {
    }

    lemma SubmittedBefore()
      requires Valid()
      ensures |executed| !in submitted
    {
      hide Frames, Replies;
    }

    lemma InBuffer()
      requires Valid()
      ensures rhave <= rbuf.Length == MAX_REQ && wsent <= wfill <= MAX_RESP && rbuf != wbuf
    {
      hide Frames, Replies;
    }

    /** The read half of conn_on_readable: any positive number of bytes the buffer has room for. */
    method Receive(bytes: seq<byte>)
      requires Valid() && rhave + |bytes| <= MAX_REQ
      modifies this`rhave, this`received, rbuf
      ensures Valid() && received == old(received) + bytes
      ensures rhave == old(rhave) + |bytes| && rbuf[..rhave] == old(rbuf[..rhave]) + bytes
      ensures old(Stranded()) ==> Stranded()
    {
      hide WriteOk, LedgerOk, Frames, Splice, DecodeRequest;
      if Stranded() {
        RequestStable(rbuf[..rhave], bytes);
      }
      ghost var was := rbuf[..];
      StartSplice(was, rhave);
      assert [] + bytes == bytes;
      Append(rbuf, rhave, bytes, was, rhave, []);
      SplicedBehind(was, 0, rhave, bytes);
      assert rbuf[..rhave + |bytes|] == rbuf[..][0..rhave + |bytes|];
      assert Frames(executed) + (was[0..rhave] + bytes) == Frames(executed) + was[0..rhave] + bytes;
      rhave := rhave + |bytes|;
      received := received + bytes;
    }

    /** One read and what it makes possible. */
    method Take(bytes: seq<byte>, table: HashTable.Table, log: nat -> Option<u64>, count: nat, ghost since: nat)
      returns (alive: bool, count': nat)
      requires Valid() && !ended && pending.None? && rhave + |bytes| <= MAX_REQ
      requires |executed| == since + count && AsLogged(since, log)
      requires table.Valid() && {this as object, rbuf, wbuf} !! table.Repr
      modifies this, rbuf, wbuf
      ensures Valid() && table.Valid()
      ensures received == old(received) + bytes && sent == old(sent)
      ensures old(executed) <= executed && old(replies) <= replies && old(seen) <= seen
      ensures old(submitted) <= submitted && done == old(done)
      ensures |executed| == since + count' && AsLogged(since, log)
      ensures forall i :: |old(seen)| <= i < |seen| ==> seen[i] == table.M
      ensures alive <==> !ended
      ensures ended ==> pending.None? && DecodeRequest(rbuf[..rhave]).Error?
      ensures Parked() ==> Full(table.M)
      ensures old(Stranded()) ==> |executed| > |old(executed)|
    {
      hide Valid, DecodeRequest, AsLogged, Stranded, Full, Parked, HashTable.Table.Valid;
      Receive(bytes);
      alive, count' := Process(table, log, count, since);
    }

    /** The buffers are as they were, and so is what the connection waits for. */
    twostate predicate Same()
      reads this`rhave, this`wsent, this`wfill, this`pending, this`ended, rbuf
    {
      && rhave == old(rhave) && wsent == old(wsent) && wfill == old(wfill)
      && pending == old(pending) && ended == old(ended)
      && rbuf[..] == old(rbuf[..])
    }

    method Resume()
      requires Valid()
      modifies this`readStalled
      ensures Valid() && !readStalled
    {
      hide Frames, Replies;
      readStalled := false;
    }

    method Stall()
      requires Valid()
      modifies this`readStalled
      ensures Valid() && readStalled
    {
      hide Frames, Replies;
      readStalled := true;
    }

    /** conn_on_readable: reads and processes until the socket has no more, the log has a mutation, the
        buffer is full, the server stops or the connection ends. A full buffer always holds a frame to
        decide. The client's bytes so far are `available`; behind them the socket would block, is closed
        or fails; stop(k) says whether the server was stopping when k of them had been read. */
    method OnReadable(available: seq<byte>, behind: Behind, table: HashTable.Table, log: nat -> Option<u64>,
                      stop: nat -> bool)
      returns (alive: bool, taken: nat, stopped: bool)
      requires Valid() && !ended
      requires table.Valid() && {this as object, rbuf, wbuf} !! table.Repr
      modifies this, rbuf, wbuf
      ensures Valid() && table.Valid()
      ensures taken <= |available| && received == old(received) + available[..taken]
      ensures sent == old(sent) && old(executed) <= executed && old(replies) <= replies
      ensures old(submitted) <= submitted && done == old(done) && AsLogged(|old(executed)|, log)
      ensures old(seen) <= seen && forall i :: |old(seen)| <= i < |seen| ==> seen[i] == table.M
      ensures alive ==> !ended && !stopped
      ensures stopped ==> stop(taken)
      ensures ended ==> pending.None? && DecodeRequest(rbuf[..rhave]).Error?
      ensures !stopped && !ended && pending.None? ==>
                && !stop(taken)
                && (if rhave == MAX_REQ then alive && readStalled && !DecodeRequest(rbuf[..rhave]).Incomplete?
                    else taken == |available| && (alive <==> behind == WouldBlock))
      ensures taken == 0 ==> executed == old(executed) && replies == old(replies) && Same()
      ensures taken > 0 ==> old(rhave) < MAX_REQ && old(pending).None? && !stop(0)
      ensures Parked() && (taken > 0 || old(Parked() ==> Full(table.M))) ==> Full(table.M)
      ensures taken > 0 && old(Stranded()) ==> |executed| > |old(executed)|
    {
      hide Valid, DecodeRequest, AsLogged, Stranded, Full, Parked, HashTable.Table.Valid;
      NoneLogged(log);
      taken, stopped := 0, false;
      if pending.Some? {
        return true, taken, stopped;
      }
      var count := 0;
      while true
        invariant Valid() && !ended && pending.None? && table.Valid() && !stopped
        invariant taken <= |available| && received == old(received) + available[..taken]
        invariant sent == old(sent) && old(executed) <= executed && old(replies) <= replies
        invariant old(submitted) <= submitted && done == old(done)
        invariant |executed| == |old(executed)| + count && AsLogged(|old(executed)|, log)
        invariant old(seen) <= seen && forall i :: |old(seen)| <= i < |seen| ==> seen[i] == table.M
        invariant taken == 0 ==> executed == old(executed) && replies == old(replies) && Same()
        invariant taken > 0 ==> old(rhave) < MAX_REQ && !stop(0)
        invariant Parked() && (taken > 0 || old(Parked() ==> Full(table.M))) ==> Full(table.M)
        invariant old(Stranded()) ==> if taken == 0 then Stranded() else |executed| > |old(executed)|
        decreases |available| - taken
      {
        InBuffer();
        stopped := stop(taken);
        if stopped {
          return false, taken, stopped;
        }
        if rhave == MAX_REQ {
          FullBufferDecides(rbuf[..rhave]);
          Stall();
          return true, taken, stopped;
        }
        if taken == |available| {
          return behind == WouldBlock, taken, stopped;
        }
        var n: int := *;
        if n <= 0 || n > MAX_REQ - rhave || taken + n > |available| {
          n := 1;
        }
        alive, count := Take(available[taken..taken + n], table, log, count, |old(executed)|);
        assert available[..taken] + available[taken..taken + n] == available[..taken + n];
        taken := taken + n;
        if !alive || pending.Some? {
          return alive, taken, stopped;
        }
      }
    }

    /** process_wal_completions for one connection: the pending mutation is applied if it is durable, and
        the client is told OK exactly if it was durable and the table had memory for it. */
    method Complete(table: HashTable.Table, logged: bool, memory: Mutation.Memory) returns (ok: bool)
      requires Valid() && pending.Some?
      requires table.Valid() && {this as object, rbuf, wbuf} !! table.Repr
      modifies table.Repr, this`pending, this`wsent, this`wfill, this`replies, this`done, wbuf
      ensures Valid() && pending.None? && table.Valid() && fresh(table.Repr - old(table.Repr))
      ensures table.M == if ok then Mutation.Apply(old(table.M), old(pending).value) else old(table.M)
      ensures ok <==> logged && Mutation.Fits(old(table.M), old(pending).value, memory)
      ensures replies == old(replies) + [MutationReply(ok)]
      ensures done == old(done) + [Outcome(old(pending).value, ok, old(table.M), table.M)]
    {
      hide Valid, HashTable.Table.Valid;
      PendingIsValid();
      ghost var before := table.M;
      ok := Mutation.Settle(table, pending.value, logged, memory);
      Answer(ok, before, table.M);
    }

    lemma PendingIsValid()
      requires Valid() && pending.Some?
      ensures pending.value.Valid()
    {
      hide Frames, Replies;
      assert executed[|executed| - 1].Valid();
      assert executed[submitted[|submitted| - 1]].opcode != OP_GET;
    }

    /** The answer to the pending mutation always fits, and the connection goes on. */
    method Answer(ok: bool, ghost before: Store, ghost after: Store)
      requires Valid() && pending.Some?
      requires after == if ok then Mutation.Apply(before, pending.value) else before
      modifies this`pending, this`wsent, this`wfill, this`replies, this`done, wbuf
      ensures Valid() && pending.None?
      ensures done == old(done) + [Outcome(old(pending).value, ok, before, after)]
      ensures replies == old(replies) + [MutationReply(ok)]
    {
      hide ReadOk, WriteOk;
      assert wsent <= wfill && wfill + RESP_HEADER <= MAX_RESP by { InBuffer(); }
      done := done + [Outcome(pending.value, ok, before, after)];
      pending := None;
      var fits := QueueResponse(MutationReply(ok));
      HistoryStays();
    }

    /** dispatch_get. */
    static method Lookup(table: HashTable.Table, key: seq<byte>) returns (reply: Response)
      requires table.Valid() && 0 < |key|
      ensures reply == GetReply(table.M, key)
    {
      var r, val := table.Get(key, MAX_VAL);
      match r
      case Ok => reply := Response(STATUS_OK, val);
      case NotFound => reply := Response(STATUS_NOT_FOUND, []);
      case _ => reply := Response(STATUS_ERROR, []);
    }
  }

  /** Framing independence: however the client's bytes were split into reads, the frames executed are a
      prefix of the frames of the whole stream, and as many as it holds once nothing is pending. */
  lemma ExecutedIsAPrefix(c: Conn, stream: seq<byte>)
    requires c.Valid() && c.received <= stream
    ensures c.executed <= Parse(stream)
    ensures DecodeRequest(c.rbuf[..c.rhave]).Incomplete? && c.received == stream ==> c.executed == Parse(stream)
  {
    hide DecodeRequest, Frames, Replies;
    var rest := c.rbuf[..c.rhave] + stream[|c.received|..];
    assert stream == c.received + stream[|c.received|..];
    assert stream == Frames(c.executed) + rest;
    ParseFrames(c.executed, rest);
    if c.received == stream {
      assert rest == c.rbuf[..c.rhave];
    }
  }

  /** The answer each executed frame must get: what the map it was executed on holds for a GET; OK for a
      mutation if and only if the log accepted it, it came back durable and the table took it. */
  ghost predicate Answers(c: Conn, i: nat, r: Response)
    requires i < |c.executed| && |c.seen| == |c.executed| && |c.done| <= |c.submitted|
    reads c
  {
    if c.executed[i].opcode == 1 then
      var store, key := c.seen[i], c.executed[i].key;
      r == if key !in store then Response(1, [])
           else if |store[key]| > 65536 then Response(2, [])
           else Response(0, store[key])
    else
      r == Response(if exists k :: 0 <= k < |c.done| && c.submitted[k] == i && c.done[k].ok then 0 else 2, [])
  }

  /** What the client sees is the encoding of the responses, in order, cut at some byte: reply i answers
      frame i, and only a malformed end adds one ERROR. */
  lemma SentIsReplies(c: Conn)
    requires c.Valid()
    ensures c.sent <= Replies(c.replies)
    ensures |c.seen| == |c.executed| && |c.done| <= |c.submitted|
    ensures forall i :: 0 <= i < |c.replies| && i < |c.executed| ==> Answers(c, i, c.replies[i])
    ensures |c.replies| > |c.executed| ==>
              c.ended && |c.replies| == |c.executed| + 1 && c.replies[|c.executed|] == Response(2, [])
  {
    hide Frames, Replies;
    forall i | 0 <= i < |c.replies| && i < |c.executed|
      ensures Answers(c, i, c.replies[i])
    {
      assert c.RepliedOk(i);
      if i in c.submitted {
        var k :| 0 <= k < |c.submitted| && c.submitted[k] == i;
        assert k < |c.done| && c.SettledOk(k);
      }
    }
  }

  /** A mutation answered OK went to the log as that frame's record, and that record was applied. */
  lemma OkMeansApplied(c: Conn, i: nat)
    requires c.Valid() && i < |c.executed| && i < |c.replies|
    requires c.executed[i].opcode != OP_GET && c.replies[i].status == STATUS_OK
    ensures exists k :: 0 <= k < |c.done| && k < |c.submitted| && c.submitted[k] == i && c.done[k].ok
              && c.done[k].record == RecordOf(c.executed[i], c.done[k].record.sequence)
              && c.done[k].after == Mutation.Apply(c.done[k].before, c.done[k].record)
  {
    hide Frames, Replies;
    assert c.RepliedOk(i);
    var k :| 0 <= k < |c.submitted| && c.submitted[k] == i;
    assert k < |c.done| && c.SettledOk(k);
  }

  /** Each executed frame went to the log at most once. */
  lemma SubmittedOnce(c: Conn, i: nat, j: nat)
    requires c.Valid() && i < |c.submitted| && j < |c.submitted| && c.submitted[i] == c.submitted[j]
    ensures i == j
  {
    hide Frames, Replies;
  }

  lemma SplicedBehind(was: seq<byte>, from: nat, at: nat, bytes: seq<byte>)
    requires from <= at && at + |bytes| <= |was|
    ensures |Splice(was, at, bytes)| == |was|
    ensures Splice(was, at, bytes)[from..at + |bytes|] == was[from..at] + bytes
  {
  }
}
