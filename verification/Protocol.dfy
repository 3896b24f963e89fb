/**
 The wire protocol of src/protocol.c.

   request:  [1B opcode][4B key_len][key][4B val_len][val]
   response: [1B status][4B val_len][val]
 */
module Protocol {
  import opened Bytes

  const OP_GET: byte := 1
  const OP_SET: byte := 2
  const OP_DEL: byte := 3

  const STATUS_OK: byte := 0
  const STATUS_NOT_FOUND: byte := 1
  const STATUS_ERROR: byte := 2

  const MAX_KEY: nat := 1024
  const MAX_VAL: nat := 65536
  const REQ_PREFIX: nat := 5
  const REQ_HEADER: nat := 9
  const RESP_HEADER: nat := 5
  const MAX_REQ: nat := REQ_HEADER + MAX_KEY + MAX_VAL
  const MAX_RESP: nat := RESP_HEADER + MAX_VAL

  datatype Request = Request(opcode: byte, key: seq<byte>, val: seq<byte>) {
    predicate Valid()
    {
      && (opcode == OP_GET || opcode == OP_SET || opcode == OP_DEL)
      && 0 < |key| <= MAX_KEY
      && |val| <= MAX_VAL
      && (opcode != OP_SET ==> |val| == 0)
    }

    function Size(): nat
    {
      REQ_HEADER + |key| + |val|
    }
  }

  datatype Response = Response(status: byte, val: seq<byte>) {
    predicate Valid()
    {
      && (status == STATUS_OK || status == STATUS_NOT_FOUND || status == STATUS_ERROR)
      && |val| <= MAX_VAL
      && (status != STATUS_OK ==> |val| == 0)
    }

    function Size(): nat
    {
      RESP_HEADER + |val|
    }
  }

  datatype Decoded<T> = Incomplete | Error | Ok(frame: T, consumed: nat)

  // ------------------------------------------------------------ requests

  function EncodeRequest(r: Request): (s: seq<byte>)
    requires r.Valid()
    ensures |s| == r.Size()
  {
    [r.opcode] + PutU32(|r.key|) + r.key + PutU32(|r.val|) + r.val
  }

  function DecodeRequest(buf: seq<byte>): Decoded<Request>
  {
    if |buf| < REQ_PREFIX then Incomplete
    else if buf[0] != OP_GET && buf[0] != OP_SET && buf[0] != OP_DEL then Error
    else
      var klen := GetU32(buf[1..5]);
      if klen == 0 || klen > MAX_KEY then Error
      else if |buf| < REQ_HEADER + klen then Incomplete
      else
        var vlen := GetU32(buf[REQ_PREFIX + klen..REQ_HEADER + klen]);
        if vlen > MAX_VAL then Error
        else if buf[0] != OP_SET && vlen != 0 then Error
        else if |buf| < REQ_HEADER + klen + vlen then Incomplete
        else
          Ok(Request(buf[0], buf[REQ_PREFIX..REQ_PREFIX + klen],
                     buf[REQ_HEADER + klen..REQ_HEADER + klen + vlen]), REQ_HEADER + klen + vlen)
  }

  lemma DecodeEncodeRequest(r: Request, rest: seq<byte>)
    requires r.Valid()
    ensures DecodeRequest(EncodeRequest(r) + rest) == Ok(r, r.Size())
  {
    hide GetU32, PutU32;
    var buf := EncodeRequest(r) + rest;
    U32RoundTrip(|r.key|);
    U32RoundTrip(|r.val|);
    assert buf[1..5] == PutU32(|r.key|);
    assert buf[REQ_PREFIX..REQ_PREFIX + |r.key|] == r.key;
    assert buf[REQ_PREFIX + |r.key|..REQ_HEADER + |r.key|] == PutU32(|r.val|);
    assert buf[REQ_HEADER + |r.key|..REQ_HEADER + |r.key| + |r.val|] == r.val;
  }

  lemma EncodeDecodeRequest(buf: seq<byte>)
    requires DecodeRequest(buf).Ok?
    ensures DecodeRequest(buf).frame.Valid()
    ensures DecodeRequest(buf).consumed == DecodeRequest(buf).frame.Size() <= |buf|
    ensures EncodeRequest(DecodeRequest(buf).frame) == buf[..DecodeRequest(buf).consumed]
  {
    hide GetU32, PutU32;
    var r, n := DecodeRequest(buf).frame, DecodeRequest(buf).consumed;
    var k := REQ_PREFIX + |r.key|;
    U32Canonical(buf[1..5]);
    U32Canonical(buf[k..k + 4]);
    assert buf[..n] == [buf[0]] + buf[1..5] + buf[5..k] + buf[k..k + 4] + buf[k + 4..n];
  }

  /** The documented layout. */
  predicate IsRequest(buf: seq<byte>, r: Request, n: nat)
  {
    var k, v := |r.key|, |r.val|;
    && 1 <= k <= 1024 && v <= 65536 && n == 9 + k + v <= |buf|
    && buf[0] == r.opcode && (r.opcode == 2 || (v == 0 && (r.opcode == 1 || r.opcode == 3)))
    && buf[1..5] == PutU32(k) && buf[5..5 + k] == r.key
    && buf[5 + k..9 + k] == PutU32(v) && buf[9 + k..n] == r.val
  }

  /** The decoder accepts it, and nothing else. */
  lemma RequestLayout(buf: seq<byte>, r: Request, n: nat)
    ensures DecodeRequest(buf) == Ok(r, n) <==> IsRequest(buf, r, n)
  {
    hide GetU32, PutU32, DecodeRequest;
    var k, v := |r.key|, |r.val|;
    if IsRequest(buf, r, n) {
      DecodeEncodeRequest(r, buf[n..]);
      assert buf == [buf[0]] + buf[1..5] + buf[5..5 + k] + buf[5 + k..9 + k] + buf[9 + k..n] + buf[n..];
    }
    if DecodeRequest(buf) == Ok(r, n) {
      EncodeDecodeRequest(buf);
      var whole := EncodeRequest(r);
      assert whole[0] == r.opcode && whole[1..5] == PutU32(k) && whole[5..5 + k] == r.key;
      assert whole[5 + k..9 + k] == PutU32(v) && whole[9 + k..n] == r.val;
      assert whole == buf[..n];
      assert buf[1..5] == whole[1..5] && buf[5..5 + k] == whole[5..5 + k];
      assert buf[5 + k..9 + k] == whole[5 + k..9 + k] && buf[9 + k..n] == whole[9 + k..n];
    }
  }

  /** A verdict other than Incomplete never changes when more bytes arrive. */
  lemma RequestStable(buf: seq<byte>, more: seq<byte>)
    requires !DecodeRequest(buf).Incomplete?
    ensures DecodeRequest(buf + more) == DecodeRequest(buf)
  {
    hide GetU32;
    var big := buf + more;
    assert big[1..5] == buf[1..5];
    var klen := GetU32(buf[1..5]);
    if klen <= MAX_KEY && |buf| >= REQ_HEADER + klen {
      assert big[REQ_PREFIX..REQ_PREFIX + klen] == buf[REQ_PREFIX..REQ_PREFIX + klen];
      assert big[REQ_PREFIX + klen..REQ_HEADER + klen] == buf[REQ_PREFIX + klen..REQ_HEADER + klen];
      var vlen := GetU32(buf[REQ_PREFIX + klen..REQ_HEADER + klen]);
      if |buf| >= REQ_HEADER + klen + vlen {
        assert big[REQ_HEADER + klen..REQ_HEADER + klen + vlen] == buf[REQ_HEADER + klen..REQ_HEADER + klen + vlen];
      }
    }
  }

  /** Every strict prefix of a request asks for more bytes. */
  lemma RequestStrictPrefix(r: Request, k: nat)
    requires r.Valid() && k < r.Size()
    ensures DecodeRequest(EncodeRequest(r)[..k]) == Incomplete
  {
    hide GetU32, PutU32;
    var whole, buf := EncodeRequest(r), EncodeRequest(r)[..k];
    U32RoundTrip(|r.key|);
    U32RoundTrip(|r.val|);
    if k >= REQ_PREFIX {
      assert buf[1..5] == whole[1..5] == PutU32(|r.key|);
      if k >= REQ_HEADER + |r.key| {
        assert buf[REQ_PREFIX + |r.key|..REQ_HEADER + |r.key|]
            == whole[REQ_PREFIX + |r.key|..REQ_HEADER + |r.key|] == PutU32(|r.val|);
      }
    }
  }

  /** A full read buffer is never waiting for more bytes. */
  lemma FullBufferDecides(buf: seq<byte>)
    requires |buf| >= MAX_REQ
    ensures !DecodeRequest(buf).Incomplete?
  {
    hide GetU32;
  }

  // ------------------------------------------------------------ responses

  function EncodeResponse(r: Response): (s: seq<byte>)
    requires r.Valid()
    ensures |s| == r.Size()
  {
    [r.status] + PutU32(|r.val|) + r.val
  }

  function DecodeResponse(buf: seq<byte>): Decoded<Response>
  {
    if |buf| < RESP_HEADER then Incomplete
    else if buf[0] != STATUS_OK && buf[0] != STATUS_NOT_FOUND && buf[0] != STATUS_ERROR then Error
    else
      var vlen := GetU32(buf[1..5]);
      if vlen > MAX_VAL then Error
      else if buf[0] != STATUS_OK && vlen != 0 then Error
      else if |buf| < RESP_HEADER + vlen then Incomplete
      else Ok(Response(buf[0], buf[RESP_HEADER..RESP_HEADER + vlen]), RESP_HEADER + vlen)
  }

  /** What a GET is answered from a store. */
  function GetReply(m: map<seq<byte>, seq<byte>>, key: seq<byte>): (r: Response)
    ensures r.Valid()
  {
    if key !in m then Response(STATUS_NOT_FOUND, [])
    else if |m[key]| > MAX_VAL then Response(STATUS_ERROR, [])
    else Response(STATUS_OK, m[key])
  }

  lemma DecodeEncodeResponse(r: Response, rest: seq<byte>)
    requires r.Valid()
    ensures DecodeResponse(EncodeResponse(r) + rest) == Ok(r, r.Size())
  {
    hide GetU32, PutU32;
    var buf := EncodeResponse(r) + rest;
    U32RoundTrip(|r.val|);
    assert buf[1..5] == PutU32(|r.val|);
    assert buf[RESP_HEADER..RESP_HEADER + |r.val|] == r.val;
  }

  lemma EncodeDecodeResponse(buf: seq<byte>)
    requires DecodeResponse(buf).Ok?
    ensures DecodeResponse(buf).frame.Valid()
    ensures DecodeResponse(buf).consumed == DecodeResponse(buf).frame.Size() <= |buf|
    ensures EncodeResponse(DecodeResponse(buf).frame) == buf[..DecodeResponse(buf).consumed]
  {
    hide GetU32, PutU32;
    var n := DecodeResponse(buf).consumed;
    U32Canonical(buf[1..5]);
    assert buf[..n] == [buf[0]] + buf[1..5] + buf[5..n];
  }

  predicate IsResponse(buf: seq<byte>, r: Response, n: nat)
  {
    var v := |r.val|;
    && v <= 65536 && n == 5 + v <= |buf|
    && buf[0] == r.status && (r.status == 0 || (v == 0 && (r.status == 1 || r.status == 2)))
    && buf[1..5] == PutU32(v) && buf[5..n] == r.val
  }

  lemma ResponseLayout(buf: seq<byte>, r: Response, n: nat)
    ensures DecodeResponse(buf) == Ok(r, n) <==> IsResponse(buf, r, n)
  {
    hide GetU32, PutU32, DecodeResponse;
    var v := |r.val|;
    if IsResponse(buf, r, n) {
      DecodeEncodeResponse(r, buf[n..]);
      assert buf == [buf[0]] + buf[1..5] + buf[5..n] + buf[n..];
    }
    if DecodeResponse(buf) == Ok(r, n) {
      EncodeDecodeResponse(buf);
      var whole := EncodeResponse(r);
      assert whole[0] == r.status && whole[1..5] == PutU32(v) && whole[5..n] == r.val;
      assert buf[1..5] == buf[..n][1..5] && buf[5..n] == buf[..n][5..n];
    }
  }

  lemma ResponseStable(buf: seq<byte>, more: seq<byte>)
    requires !DecodeResponse(buf).Incomplete?
    ensures DecodeResponse(buf + more) == DecodeResponse(buf)
  {
    hide GetU32;
    var big := buf + more;
    assert big[1..5] == buf[1..5];
    var vlen := GetU32(buf[1..5]);
    if |buf| >= RESP_HEADER + vlen {
      assert big[RESP_HEADER..RESP_HEADER + vlen] == buf[RESP_HEADER..RESP_HEADER + vlen];
    }
  }

  lemma ResponseStrictPrefix(r: Response, k: nat)
    requires r.Valid() && k < r.Size()
    ensures DecodeResponse(EncodeResponse(r)[..k]) == Incomplete
  {
    hide GetU32, PutU32;
    U32RoundTrip(|r.val|);
    if k >= RESP_HEADER {
      assert EncodeResponse(r)[..k][1..5] == EncodeResponse(r)[1..5] == PutU32(|r.val|);
    }
  }
}
