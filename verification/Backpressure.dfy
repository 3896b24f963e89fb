/**
 What a readiness event does to a connection (src/main.c), and the frames it leaves waiting: a frame whose
 answer has no room in the write buffer waits to be woken by the socket becoming writable, which it only
 does while there is something to write.
 */
module Backpressure {
  import opened Bytes
  import opened Options
  import opened Connection
  import HashTable
  import P = Protocol

  /** conn_on_writable: writes, executes what was waiting for room, and reads on where reading had stopped
      for want of it. */
  method OnWritable(c: Conn, wire: nat -> Writing, available: seq<byte>, behind: Behind, table: HashTable.Table,
                    log: nat -> Option<u64>, moreLog: nat -> Option<u64>, stop: nat -> bool)
    returns (alive: bool, ghost drained: bool)
    requires c.Valid() && !c.ended
    requires table.Valid() && {c as object, c.rbuf, c.wbuf} !! table.Repr
    modifies c, c.rbuf, c.wbuf
    ensures c.Valid() && table.Valid() && old(c.executed) <= c.executed && old(c.sent) <= c.sent
    ensures alive ==> !c.ended
    ensures c.Parked() && drained ==> c.Full(table.M)
    ensures drained && old(c.Parked()) ==> |c.executed| > |old(c.executed)|
  {
    hide Conn.Valid, Conn.Parked, Conn.Full, Conn.AsLogged, HashTable.Table.Valid, P.DecodeRequest;
    alive := c.Flush(wire);
    drained := c.wsent >= c.wfill;
    if !alive {
      return;
    }
    c.NoneLogged(log);
    var count;
    alive, count := c.Process(table, log, 0, |c.executed|);
    if alive && c.pending.None? && c.readStalled && c.rhave < P.MAX_REQ {
      c.Resume();
      var taken, stopped;
      alive, taken, stopped := c.OnReadable(available, behind, table, moreLog, stop);
    }
  }

  /** What worker_main does for one event of a connection, up to asking to be told when the socket is writable:
      it asks exactly while bytes are owed, so a frame left waiting is stranded exactly if the kernel took
      everything. A stranded frame is executed with the next bytes to arrive, unless the read buffer is full:
      then no event of the client's doing changes anything any more. */
  method OnEvent(c: Conn, writable: bool, readable: bool, wire: nat -> Writing, lastWire: nat -> Writing,
                 available: seq<byte>, behind: Behind, table: HashTable.Table,
                 log: nat -> Option<u64>, moreLog: nat -> Option<u64>, stop: nat -> bool)
    returns (alive: bool, wantWrite: bool)
    requires c.Valid() && !c.ended
    requires table.Valid() && {c as object, c.rbuf, c.wbuf} !! table.Repr
    modifies c, c.rbuf, c.wbuf
    ensures c.Valid() && table.Valid() && old(c.executed) <= c.executed && old(c.sent) <= c.sent
    ensures alive ==> !c.ended && (wantWrite <==> c.wsent < c.wfill)
    ensures alive ==> (c.Stranded() <==> c.Parked() && !wantWrite)
    ensures old(c.Stranded()) && !writable && readable && available != [] && !stop(0) ==>
              old(c.rhave) == P.MAX_REQ || |c.executed| > |old(c.executed)|
    ensures old(c.Stranded() && c.rhave == P.MAX_REQ) && !writable && !stop(0) ==>
              alive && c.Stranded() && c.rhave == P.MAX_REQ && c.executed == old(c.executed) && c.sent == old(c.sent)
  {
    hide Conn.Valid, Conn.Full, Conn.AsLogged, HashTable.Table.Valid, P.DecodeRequest;
    alive, wantWrite := true, false;
    if writable {
      ghost var drained;
      alive, drained := OnWritable(c, wire, available, behind, table, log, moreLog, stop);
    }
    if alive && readable && c.pending.None? {
      var taken, stopped;
      c.InBuffer();
      assert c.rbuf[..c.rhave] == c.rbuf[..][..c.rhave];
      alive, taken, stopped := c.OnReadable(available, behind, table, log, stop);
      c.InBuffer();
      assert c.rbuf[..c.rhave] == c.rbuf[..][..c.rhave];
    }
    if alive {
      alive := c.Flush(lastWire);
    }
    wantWrite := alive && c.wsent < c.wfill;
  }

  // ------------------------------------------------------------ a stranded frame

  function GetOf(key: seq<byte>): (r: P.Request)
    requires 0 < |key| <= 1024
    ensures r.Valid()
  {
    P.Request(P.OP_GET, key, [])
  }

  /** Two GETs of the same key, and anything behind them. */
  function TwoGets(key: seq<byte>, more: seq<byte>): seq<byte>
    requires 0 < |key| <= 1024
  {
    P.EncodeRequest(GetOf(key)) + (P.EncodeRequest(GetOf(key)) + more)
  }

  lemma ParseTwoGets(key: seq<byte>, more: seq<byte>)
    requires 0 < |key| <= 1024
    ensures Parse(TwoGets(key, more)) == [GetOf(key), GetOf(key)] + Parse(more)
  {
    hide P.EncodeRequest, P.DecodeRequest;
    var get := GetOf(key);
    ParseFirst(get, P.EncodeRequest(get) + more);
    ParseFirst(get, more);
    assert [get] + ([get] + Parse(more)) == [get, get] + Parse(more);
  }

  lemma ParseFirst(r: P.Request, rest: seq<byte>)
    requires r.Valid()
    ensures Parse(P.EncodeRequest(r) + rest) == [r] + Parse(rest)
  {
    hide P.EncodeRequest, P.DecodeRequest;
    P.DecodeEncodeRequest(r, rest);
    assert (P.EncodeRequest(r) + rest)[r.Size()..] == rest;
  }

  /** The answer to a GET of a value of the largest size fills the write buffer. */
  lemma LargeReply(m: Store, key: seq<byte>)
    requires key in m && |m[key]| == 65536
    ensures P.GetReply(m, key) == P.Response(0, m[key])
    ensures P.GetReply(m, key).Size() == P.MAX_RESP
  {
  }

  lemma {:induction false} RepliesAddUp(rs: seq<P.Response>)
    requires AllResponses(rs) && |rs| >= 2
    ensures |Replies(rs)| >= rs[0].Size() + rs[1].Size()
  {
    hide P.EncodeResponse;
    var n := |rs| - 1;
    if n >= 2 {
      RepliesAddUp(rs[..n]);
    } else {
      assert rs[..1][..0] == [];
    }
  }

  /** So at most one of the two can have been answered. */
  lemma AtMostOne(c: Conn, key: seq<byte>, m: Store)
    requires c.Valid() && c.sent == [] && 0 < |key| <= 1024 && key in m && |m[key]| == 65536
    requires |c.executed| >= 2 ==> c.executed[0] == c.executed[1] == GetOf(key) && c.seen[0] == c.seen[1] == m
    ensures |c.executed| <= 1
  {
    hide Frames, Replies, P.GetReply;
    if |c.executed| >= 2 {
      LargeReply(m, key);
      assert |c.replies| >= 2 by {
        if c.pending.Some? {
          assert c.executed[c.submitted[|c.submitted| - 1]].opcode != P.OP_GET;
        }
      }
      assert c.RepliedOk(0) && c.RepliedOk(1);
      RepliesAddUp(c.replies);
      assert false;
    }
  }

  lemma StartsWith(buf: seq<byte>, r: P.Request, rest: seq<byte>)
    requires r.Valid() && buf <= P.EncodeRequest(r) + rest && |buf| >= r.Size()
    ensures P.DecodeRequest(buf) == P.Ok(r, r.Size())
  {
    hide P.EncodeRequest, P.DecodeRequest;
    assert buf == P.EncodeRequest(r) + buf[r.Size()..];
    P.DecodeEncodeRequest(r, buf[r.Size()..]);
  }

  /** A connection that has executed nothing but GETs waits for no log, and one that has executed nothing owes
      nothing. */
  lemma NothingButGets(c: Conn)
    requires c.Valid() && c.sent == [] && forall i :: 0 <= i < |c.executed| ==> c.executed[i].opcode == P.OP_GET
    ensures c.pending.None?
    ensures c.executed == [] && !c.ended ==> c.wsent == c.wfill
    ensures c.received == Frames(c.executed) + c.rbuf[..c.rhave]
  {
    hide Frames;
    assert Replies([]) == [];
    assert c.executed == [] && c.pending.None? && !c.ended ==> c.replies == [];
  }

  lemma FramesOfOne(r: P.Request)
    requires r.Valid()
    ensures Frames([]) == [] && Frames([r]) == P.EncodeRequest(r)
  {
    hide P.EncodeRequest;
    assert [r][..0] == [];
  }

  /** Part of a frame, or a frame and more, is not malformed. */
  lemma NotMalformed(buf: seq<byte>, r: P.Request, rest: seq<byte>)
    requires r.Valid() && buf <= P.EncodeRequest(r) + rest
    ensures !P.DecodeRequest(buf).Error?
  {
    hide P.EncodeRequest, P.DecodeRequest;
    if |buf| < r.Size() {
      P.RequestStrictPrefix(r, |buf|);
      assert buf == P.EncodeRequest(r)[..|buf|];
    } else {
      StartsWith(buf, r, rest);
    }
  }

  lemma NextIsNotBad(key: seq<byte>, more: seq<byte>, done: seq<P.Request>, buf: seq<byte>)
    requires 0 < |key| <= 1024 && (done == [] || done == [GetOf(key)])
    requires Frames(done) + buf <= TwoGets(key, more)
    ensures !P.DecodeRequest(buf).Error?
  {
    hide P.EncodeRequest, P.DecodeRequest, Frames;
    var get := GetOf(key);
    FramesOfOne(get);
    var front, rest := P.EncodeRequest(get), P.EncodeRequest(get) + more;
    if done == [] {
      assert Frames(done) + buf == buf;
      NotMalformed(buf, get, rest);
    } else {
      assert buf == (front + buf)[|front|..] && rest == (front + rest)[|front|..];
      NotMalformed(buf, get, more);
    }
  }

  /** With none or one of the GETs executed, the next one is whole at the front of the buffer. */
  lemma NextIsWhole(key: seq<byte>, more: seq<byte>, done: seq<P.Request>, buf: seq<byte>)
    requires 0 < |key| <= 1024 && (done == [] || done == [GetOf(key)])
    requires Frames(done) + buf <= TwoGets(key, more)
    requires |buf| == P.MAX_REQ || Frames(done) + buf == TwoGets(key, more)
    ensures P.DecodeRequest(buf) == P.Ok(GetOf(key), GetOf(key).Size())
    ensures done != [] && |more| >= P.MAX_REQ && |buf| <= P.MAX_REQ ==> |buf| == P.MAX_REQ
  {
    hide P.EncodeRequest, P.DecodeRequest, Frames;
    var get := GetOf(key);
    FramesOfOne(get);
    if done == [] {
      assert Frames(done) + buf == buf;
      StartsWith(buf, get, P.EncodeRequest(get) + more);
    } else {
      var front, rest := P.EncodeRequest(get), P.EncodeRequest(get) + more;
      assert buf == (front + buf)[|front|..] && rest == (front + rest)[|front|..];
      StartsWith(buf, get, more);
    }
  }

  /** The two GETs as they stand when reading stops: the first answered, the second waiting. */
  lemma OneWaits(c: Conn, key: seq<byte>, more: seq<byte>, m: Store)
    requires 0 < |key| <= 1024 && key in m && |m[key]| == 65536
    requires c.Valid() && c.sent == [] && c.received <= TwoGets(key, more)
    requires forall i :: 0 <= i < |c.seen| ==> c.seen[i] == m
    requires c.pending.None? && !c.ended ==> c.rhave == P.MAX_REQ || c.received == TwoGets(key, more)
    requires c.ended ==> P.DecodeRequest(c.rbuf[..c.rhave]).Error?
    requires c.Parked() ==> c.Full(m)
    ensures c.executed == [GetOf(key)] && c.Parked()
    ensures |more| >= P.MAX_REQ ==> c.rhave == P.MAX_REQ
  {
    hide Conn.Valid, P.EncodeRequest, P.DecodeRequest, P.GetReply, Parse, TwoGets, Frames;
    c.InBuffer();
    AllSeen(c);
    ParseTwoGets(key, more);
    ExecutedIsAPrefix(c, TwoGets(key, more));
    AtMostOne(c, key, m);
    assert c.executed == [] || c.executed == [GetOf(key)];
    NothingButGets(c);
    NextIsNotBad(key, more, c.executed, c.rbuf[..c.rhave]);
    NextIsWhole(key, more, c.executed, c.rbuf[..c.rhave]);
    LargeReply(m, key);
  }

  lemma AllSeen(c: Conn)
    requires c.Valid()
    ensures |c.seen| == |c.executed|
  {
    hide Frames, Replies;
  }

  lemma FirstAnswer(c: Conn, key: seq<byte>, m: Store)
    requires 0 < |key| <= 1024 && key in m && |m[key]| == 65536
    requires c.Valid() && c.executed == [GetOf(key)] && c.pending.None? && !c.ended && c.seen == [m]
    ensures c.replies == [P.Response(0, m[key])]
    ensures Replies(c.replies) == P.EncodeResponse(P.Response(0, m[key]))
  {
    hide Frames, P.EncodeResponse;
    LargeReply(m, key);
    assert c.RepliedOk(0);
    assert c.replies[..0] == [];
  }

  /** Reading the two GETs on a new connection. */
  method ReadTwoGets(key: seq<byte>, more: seq<byte>, table: HashTable.Table) returns (c: Conn)
    requires table.Valid() && 0 < |key| <= 1024 && key in table.M && |table.M[key]| == 65536
    ensures fresh(c) && fresh(c.rbuf) && fresh(c.wbuf) && c.Valid() && table.Valid()
    ensures c.received <= TwoGets(key, more) && c.executed == [GetOf(key)] && c.seen == [table.M] && c.Parked()
    ensures |more| >= P.MAX_REQ ==> c.rhave == P.MAX_REQ
  {
    hide Conn.Valid, Conn.Full, Conn.AsLogged, Conn.Parked, HashTable.Table.Valid, P.EncodeRequest, P.DecodeRequest;
    assert |TwoGets(key, more)| > 0;
    hide TwoGets;
    c := new Conn();
    var alive, taken, stopped := c.OnReadable(TwoGets(key, more), WouldBlock, table, _ => None, _ => false);
    OneWaits(c, key, more, table.M);
    AllSeen(c);
  }

  /** "A frame left waiting is always woken" is false: a client that sends two GETs of a value of the largest
      size, to a kernel that takes the whole first answer, is never sent the second; and if it has sent enough
      behind them to fill the read buffer, sending more does not help. */
  method StrandTheSecondGet(key: seq<byte>, val: seq<byte>, more: seq<byte>)
    returns (c: Conn, table: HashTable.Table, wantWrite: bool)
    requires 0 < |key| <= 1024 && |val| == 65536
    ensures fresh(c) && fresh(c.rbuf) && fresh(c.wbuf) && c.Valid() && fresh(table.Repr) && table.Valid()
    ensures c.received <= TwoGets(key, more) && c.executed == [GetOf(key)] && c.replies == [P.Response(0, val)]
    ensures c.sent == P.EncodeResponse(P.Response(0, val)) && c.Stranded() && !wantWrite
    ensures |more| >= P.MAX_REQ ==> c.rhave == P.MAX_REQ
  {
    hide Conn.Valid, Conn.Full, HashTable.Table.Valid, P.EncodeResponse, P.DecodeRequest, TwoGets, Replies;
    table := new HashTable.Table();
    var res := table.Set(key, val, true, true);
    c := ReadTwoGets(key, more, table);
    FirstAnswer(c, key, table.M);
    var alive := c.Flush(_ => Takes(P.MAX_RESP));
    wantWrite := c.wsent < c.wfill;
  }
}
