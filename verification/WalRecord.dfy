/**
 The log record codec of src/wal.c.

   [4B magic][2B version][1B opcode][1B flags]
   [4B record_len][8B sequence][4B key_len][4B value_len]
   [key][value][4B CRC32]
 */
module WalRecord {
  import opened Bytes
  import opened Crc32
  import CrcEdge
  import Protocol
  import opened Buffers

  const OP_SET: byte := Protocol.OP_SET
  const OP_DEL: byte := Protocol.OP_DEL

  const MAX_KEY: nat := Protocol.MAX_KEY
  const MAX_VAL: nat := Protocol.MAX_VAL

  const MAGIC: u32 := 0x504b_574c
  const VERSION: u16 := 1
  const HEADER_LEN: nat := 28
  const CRC_LEN: nat := 4
  const MIN_RECORD: nat := HEADER_LEN + CRC_LEN
  const MAX_RECORD: nat := MIN_RECORD + MAX_KEY + MAX_VAL

  datatype Record = Record(opcode: byte, sequence: u64, key: seq<byte>, val: seq<byte>) {
    predicate Valid()
    {
      && 0 < |key| <= MAX_KEY
      && |val| <= MAX_VAL
      && (opcode == OP_SET || opcode == OP_DEL)
      && (opcode == OP_DEL ==> |val| == 0)
    }

    function Size(): nat
    {
      MIN_RECORD + |key| + |val|
    }
  }

  datatype DecodeResult = Incomplete | Error | Ok(record: Record, consumed: nat)

  /** pk_wal_record_size: zero means the lengths are out of bounds. */
  function RecordSize(keyLen: nat, valLen: nat): nat
  {
    if keyLen == 0 || keyLen > MAX_KEY || valLen > MAX_VAL then 0
    else MIN_RECORD + keyLen + valLen
  }

  // ------------------------------------------------------------ encode

  function Header(r: Record): (h: seq<byte>)
    requires r.Valid()
    ensures |h| == HEADER_LEN
  {
    PutU32(MAGIC) + PutU16(VERSION) + [r.opcode, 0] + PutU32(r.Size())
    + PutU64(r.sequence) + PutU32(|r.key|) + PutU32(|r.val|)
  }

  function Body(r: Record): (b: seq<byte>)
    requires r.Valid()
    ensures |b| == r.Size() - CRC_LEN
  {
    Header(r) + r.key + r.val
  }

  function Encode(r: Record): (s: seq<byte>)
    requires r.Valid()
    ensures |s| == r.Size()
  {
    Body(r) + PutU32(Crc(Body(r)))
  }

  // ------------------------------------------------------------ decode

  predicate HeaderOk(buf: seq<byte>)
    requires |buf| >= HEADER_LEN
  {
    var total, klen, vlen := GetU32(buf[8..12]), GetU32(buf[20..24]), GetU32(buf[24..28]);
    && GetU32(buf[0..4]) == MAGIC
    && GetU16(buf[4..6]) == VERSION
    && buf[7] == 0
    && RecordSize(klen, vlen) != 0
    && total == RecordSize(klen, vlen)
    && total <= MAX_RECORD
  }

  function Decode(buf: seq<byte>): DecodeResult
  {
    if |buf| < HEADER_LEN then Incomplete
    else if !HeaderOk(buf) then Error
    else
      var total, klen, vlen := GetU32(buf[8..12]), GetU32(buf[20..24]), GetU32(buf[24..28]);
      if |buf| < total then Incomplete
      else
        var opcode := buf[6];
        if (opcode != OP_SET && opcode != OP_DEL) || (opcode == OP_DEL && vlen != 0) then Error
        else if GetU32(buf[total - CRC_LEN..total]) != Crc(buf[..total - CRC_LEN]) then Error
        else
          Ok(Record(opcode, GetU64(buf[12..20]),
                    buf[HEADER_LEN..HEADER_LEN + klen],
                    buf[HEADER_LEN + klen..HEADER_LEN + klen + vlen]), total)
  }

  // ------------------------------------------------------------ the codec is a bijection

  lemma HeaderFields(r: Record)
    requires r.Valid()
    ensures Header(r)[0..4] == PutU32(MAGIC) && Header(r)[4..6] == PutU16(VERSION)
    ensures Header(r)[6] == r.opcode && Header(r)[7] == 0
    ensures Header(r)[8..12] == PutU32(r.Size()) && Header(r)[12..20] == PutU64(r.sequence)
    ensures Header(r)[20..24] == PutU32(|r.key|) && Header(r)[24..28] == PutU32(|r.val|)
  {
  }

  lemma HeaderIsOk(r: Record, tail: seq<byte>)
    requires r.Valid()
    ensures HeaderOk(Header(r) + tail)
    ensures GetU32((Header(r) + tail)[8..12]) == r.Size()
    ensures GetU64((Header(r) + tail)[12..20]) == r.sequence
    ensures GetU32((Header(r) + tail)[20..24]) == |r.key|
    ensures GetU32((Header(r) + tail)[24..28]) == |r.val|
  {
    hide GetU16, GetU32, GetU64, PutU16, PutU32, PutU64, Crc;
    var h, buf := Header(r), Header(r) + tail;
    HeaderFields(r);
    assert buf[0..4] == h[0..4] && buf[4..6] == h[4..6] && buf[8..12] == h[8..12];
    assert buf[12..20] == h[12..20] && buf[20..24] == h[20..24] && buf[24..28] == h[24..28];
    U32RoundTrip(MAGIC);
    U16RoundTrip(VERSION);
    U32RoundTrip(r.Size());
    U64RoundTrip(r.sequence);
    U32RoundTrip(|r.key|);
    U32RoundTrip(|r.val|);
  }

  /** The documented layout, behind the magic "PKWL" and version one. */
  predicate IsRecord(buf: seq<byte>, r: Record, n: nat)
  {
    var k, v := |r.key|, |r.val|;
    && 1 <= k <= 1024 && v <= 65536 && n == 32 + k + v <= |buf|
    && buf[0..4] == [0x50, 0x4b, 0x57, 0x4c] && buf[4..6] == [0, 1]
    && buf[6] == r.opcode && (r.opcode == 2 || (r.opcode == 3 && v == 0)) && buf[7] == 0
    && buf[8..12] == PutU32(n) && buf[12..20] == PutU64(r.sequence)
    && buf[20..24] == PutU32(k) && buf[24..28] == PutU32(v)
    && buf[28..28 + k] == r.key && buf[28 + k..n - 4] == r.val
    && buf[n - 4..n] == PutU32(Crc(buf[..n - 4]))
  }

  lemma MagicBytes()
    ensures PutU32(MAGIC) == [0x50, 0x4b, 0x57, 0x4c] && PutU16(VERSION) == [0, 1]
  {
    U32Order(0x50, 0x4b, 0x57, 0x4c);
  }

  /** Decoding an encoded record, whatever follows it, gives the record and its length. */
  lemma DecodeEncode(r: Record, rest: seq<byte>)
    requires r.Valid()
    ensures Decode(Encode(r) + rest) == Ok(r, r.Size())
  {
    hide GetU16, GetU32, GetU64, PutU16, PutU32, PutU64, Crc;
    var buf := Encode(r) + rest;
    var tail := r.key + r.val + PutU32(Crc(Body(r))) + rest;
    assert buf == Header(r) + tail;
    HeaderIsOk(r, tail);
    HeaderFields(r);
    assert buf[6] == Header(r)[6];
    assert buf[HEADER_LEN..HEADER_LEN + |r.key|] == r.key;
    assert buf[HEADER_LEN + |r.key|..HEADER_LEN + |r.key| + |r.val|] == r.val;
    assert buf[..r.Size() - CRC_LEN] == Body(r);
    assert buf[r.Size() - CRC_LEN..r.Size()] == PutU32(Crc(Body(r)));
    U32RoundTrip(Crc(Body(r)));
  }

  /** Every accepted frame is the encoding of the record it decodes to. */
  lemma EncodeDecode(buf: seq<byte>)
    requires Decode(buf).Ok?
    ensures Decode(buf).record.Valid()
    ensures Decode(buf).consumed == Decode(buf).record.Size() <= |buf|
    ensures Encode(Decode(buf).record) == buf[..Decode(buf).consumed]
  {
    hide GetU16, GetU32, GetU64, PutU16, PutU32, PutU64, Crc;
    var r, n := Decode(buf).record, Decode(buf).consumed;
    HeaderDecode(buf);
    assert Body(r) == buf[..n - CRC_LEN];
    U32Canonical(buf[n - CRC_LEN..n]);
    assert buf[..n] == buf[..n - CRC_LEN] + buf[n - CRC_LEN..n];
  }

  /** The decoder accepts exactly that layout. */
  lemma RecordLayout(buf: seq<byte>, r: Record, n: nat)
    ensures Decode(buf) == Ok(r, n) <==> IsRecord(buf, r, n)
  {
    hide GetU16, GetU32, GetU64, PutU16, PutU32, PutU64, Crc, Decode;
    MagicBytes();
    if IsRecord(buf, r, n) {
      var k := |r.key|;
      HeaderFields(r);
      assert buf[..28] == buf[0..4] + buf[4..6] + [buf[6], buf[7]] + buf[8..12]
                          + buf[12..20] + buf[20..24] + buf[24..28];
      assert Header(r) == buf[..28];
      assert buf[..n - 4] == buf[..28] + buf[28..28 + k] + buf[28 + k..n - 4];
      assert buf == buf[..n - 4] + buf[n - 4..n] + buf[n..];
      DecodeEncode(r, buf[n..]);
    }
    if Decode(buf) == Ok(r, n) {
      EncodeDecode(buf);
      EncodedIsRecord(r);
      SamePrefix(buf, Encode(r), r, n);
    }
  }

  lemma EncodedIsRecord(r: Record)
    requires r.Valid()
    ensures IsRecord(Encode(r), r, r.Size())
  {
    hide GetU16, GetU32, GetU64, PutU16, PutU32, PutU64, Crc;
    MagicBytes();
    HeaderFields(r);
    var whole, h := Encode(r), Header(r);
    assert whole[..28] == h && whole[..r.Size() - 4] == Body(r);
    assert forall i, j :: 0 <= i <= j <= 28 ==> whole[i..j] == h[i..j];
  }

  lemma SamePrefix(buf: seq<byte>, whole: seq<byte>, r: Record, n: nat)
    requires n <= |buf| && whole == buf[..n] && IsRecord(whole, r, n)
    ensures IsRecord(buf, r, n)
  {
    hide PutU32, PutU64, Crc;
    assert forall i, j :: 0 <= i <= j <= n ==> whole[i..j] == buf[i..j];
    assert whole[..n - 4] == buf[..n - 4];
  }

  lemma HeaderDecode(buf: seq<byte>)
    requires Decode(buf).Ok?
    ensures Decode(buf).record.Valid()
    ensures Header(Decode(buf).record) == buf[..HEADER_LEN]
  {
    hide GetU16, GetU32, GetU64, PutU16, PutU32, PutU64, Crc;
    var r := Decode(buf).record;
    var h := buf[..HEADER_LEN];
    U32Canonical(buf[0..4]);
    U16Canonical(buf[4..6]);
    U32Canonical(buf[8..12]);
    U64Canonical(buf[12..20]);
    U32Canonical(buf[20..24]);
    U32Canonical(buf[24..28]);
    assert buf[6..8] == [buf[6], buf[7]];
    assert h == buf[0..4] + buf[4..6] + buf[6..8] + buf[8..12] + buf[12..20] + buf[20..24] + buf[24..28];
  }

  /** A verdict other than Incomplete never changes when more bytes arrive. */
  lemma DecodeStable(buf: seq<byte>, more: seq<byte>)
    requires !Decode(buf).Incomplete?
    ensures Decode(buf + more) == Decode(buf)
  {
    hide GetU16, GetU32, GetU64, PutU16, PutU32, PutU64, Crc;
    var big := buf + more;
    assert big[0..4] == buf[0..4] && big[4..6] == buf[4..6] && big[8..12] == buf[8..12];
    assert big[12..20] == buf[12..20] && big[20..24] == buf[20..24] && big[24..28] == buf[24..28];
    if HeaderOk(buf) {
      var total, klen, vlen := GetU32(buf[8..12]), GetU32(buf[20..24]), GetU32(buf[24..28]);
      assert big[total - CRC_LEN..total] == buf[total - CRC_LEN..total];
      assert big[..total - CRC_LEN] == buf[..total - CRC_LEN];
      assert big[HEADER_LEN..HEADER_LEN + klen] == buf[HEADER_LEN..HEADER_LEN + klen];
      assert big[HEADER_LEN + klen..HEADER_LEN + klen + vlen] == buf[HEADER_LEN + klen..HEADER_LEN + klen + vlen];
    }
  }

  /** Every strict prefix of a record asks for more bytes. */
  lemma DecodeStrictPrefix(r: Record, k: nat)
    requires r.Valid()
    requires k < r.Size()
    ensures Decode(Encode(r)[..k]) == Incomplete
  {
    hide GetU16, GetU32, GetU64, PutU16, PutU32, PutU64, Crc;
    var buf := Encode(r)[..k];
    if k >= HEADER_LEN {
      assert Encode(r)[..k] == Header(r) + Encode(r)[HEADER_LEN..k];
      HeaderIsOk(r, Encode(r)[HEADER_LEN..k]);
    }
  }

  /** A buffer as long as the longest record never asks for more. */
  lemma IncompleteIsShort(buf: seq<byte>)
    requires Decode(buf).Incomplete?
    ensures |buf| < MAX_RECORD
  {
  }

  // ------------------------------------------------------------ corruption is detected

  /** The length field must agree with the key and value lengths before anything else is believed. */
  lemma LengthsAgree(buf: seq<byte>)
    requires |buf| >= HEADER_LEN && !Decode(buf).Error?
    ensures GetU32(buf[8..12]) == MIN_RECORD + GetU32(buf[20..24]) + GetU32(buf[24..28])
  {
  }

  ghost predicate DiffersOnlyIn(a: seq<byte>, b: seq<byte>, lo: nat, hi: nat)
    requires |a| == |b|
  {
    forall j :: 0 <= j < |a| && !(lo <= j < hi) ==> a[j] == b[j]
  }

  /** A change of up to four consecutive bytes leaves the length field consistent only if it leaves the
      length alone. */
  lemma BurstKeepsLength(r: Record, bad: seq<byte>, i: nat, rest: seq<byte>)
    requires r.Valid()
    requires |bad| == r.Size() && DiffersOnlyIn(Encode(r), bad, i, i + 4)
    requires !Decode(bad + rest).Error?
    ensures GetU32((bad + rest)[8..12]) == r.Size()
  {
    hide GetU16, GetU32, GetU64, PutU16, PutU32, PutU64, Crc;
    var good, buf := Encode(r), bad + rest;
    var tail := good[HEADER_LEN..];
    assert good == Header(r) + tail;
    HeaderIsOk(r, tail);
    LengthsAgree(buf);
    if 4 < i < 12 {
      assert buf[20..24] == good[20..24] && buf[24..28] == good[24..28];
    } else {
      assert buf[8..12] == good[8..12];
    }
  }

  predicate HasTwin(r: Record)
  {
    |r.key| + |r.val| >= 2
  }

  /** The one record whose encoding differs from this one's only in four bytes across the edge of the
      checksum: its last two payload bytes are changed in a pattern that moves only the top half of the
      checksum, which is stored next to them. */
  function Twin(r: Record): (t: Record)
    requires r.Valid() && HasTwin(r)
    ensures t.Valid() && t.Size() == r.Size() && t.sequence == r.sequence
  {
    var p := r.key + r.val;
    var q := p[..|p| - 2] + CrcEdge.Twin(p[|p| - 2..]);
    Record(r.opcode, r.sequence, q[..|r.key|], q[|r.key|..])
  }

  lemma TwinBody(r: Record)
    requires r.Valid() && HasTwin(r)
    ensures var b := Body(r);
            Body(Twin(r)) == b[..|b| - 2] + CrcEdge.Twin(b[|b| - 2..])
  {
    hide GetU16, GetU32, GetU64, PutU16, PutU32, PutU64, Crc, CrcEdge.Twin;
    var p, t, b := r.key + r.val, Twin(r), Body(r);
    var q := p[..|p| - 2] + CrcEdge.Twin(p[|p| - 2..]);
    assert t.key + t.val == q;
    assert Header(t) == Header(r);
    assert b == Header(r) + p && Body(t) == Header(r) + q;
    assert b[|b| - 2..] == p[|p| - 2..] && b[..|b| - 2] == Header(r) + p[..|p| - 2];
  }

  /** The twin is a different valid record, and only those four bytes tell them apart. */
  lemma TwinIsClose(r: Record)
    requires r.Valid() && HasTwin(r)
    ensures Encode(Twin(r)) != Encode(r)
    ensures DiffersOnlyIn(Encode(r), Encode(Twin(r)), r.Size() - 6, r.Size() - 2)
    ensures Encode(r)[r.Size() - 6] != Encode(Twin(r))[r.Size() - 6]
    ensures Encode(r)[r.Size() - 5] != Encode(Twin(r))[r.Size() - 5]
  {
    hide Header, Body, GetU16, GetU32, GetU64, PutU16, PutU32, PutU64, Crc, CrcEdge.Twin, Twin;
    var b, c := Body(r), Body(Twin(r));
    var n := |b| - 2;
    TwinBody(r);
    var s, t := b[n..], CrcEdge.Twin(b[n..]);
    CrcEdge.TwinDiffers(s);
    CrcEdge.TwinIsBlind(s, t);
    CrcEdge.BlindEdge(b[..n], s, t);
    assert b == b[..n] + s && c == b[..n] + t;
    var x, y := PutU32(Crc(b)), PutU32(Crc(c));
    assert x[2..] == y[2..];
    var e, f := Encode(r), Encode(Twin(r));
    assert e == b + x && f == c + y;
    assert e[n] == s[0] && f[n] == t[0] && e[n + 1] == s[1] && f[n + 1] == t[1];
    forall j | 0 <= j < |e| && !(n <= j < n + 4)
      ensures e[j] == f[j]
    {
      if j >= n + 4 {
        assert x[2..][j - n - 4] == y[2..][j - n - 4];
      }
    }
  }

  /** Records of one size whose encodings differ only behind the key length have the same lengths. */
  lemma SameLengths(r: Record, q: Record, i: nat)
    requires r.Valid() && q.Valid() && r.Size() == q.Size() && i >= 24
    requires DiffersOnlyIn(Encode(r), Encode(q), i, i + 4)
    ensures |r.key| == |q.key| && Body(r)[27] == Body(q)[27]
  {
    hide GetU16, GetU32, GetU64, PutU16, PutU32, PutU64, Crc;
    HeaderFields(r);
    HeaderFields(q);
    var a, b := Encode(r), Encode(q);
    assert a[20..24] == b[20..24];
    assert a[20..24] == Header(r)[20..24] && b[20..24] == Header(q)[20..24];
    U32RoundTrip(|r.key|);
    U32RoundTrip(|q.key|);
    assert Header(r)[24..28][3] == Header(q)[24..28][3];
  }

  /** A record that differs from r in a window across the edge of the checksum is r or its twin. */
  lemma EdgeSeparates(r: Record, q: Record, i: nat)
    requires r.Valid() && q.Valid() && r.Size() == q.Size()
    requires DiffersOnlyIn(Encode(r), Encode(q), i, i + 4)
    requires r.Size() - 8 < i < r.Size() - 4
    ensures Body(q) == Body(r) || (HasTwin(r) && Body(q) == Body(Twin(r)))
  {
    hide Header, GetU16, GetU32, GetU64, PutU16, PutU32, PutU64, Crc, CrcEdge.Twin, Twin;
    var n := r.Size() - CRC_LEN;
    var a, b := Encode(r), Encode(q);
    var pre, s, t := Body(r)[..i], Body(r)[i..], Body(q)[i..];
    assert a[..n] == Body(r) && b[..n] == Body(q);
    assert Body(r) == pre + s && Body(q) == pre + t;
    if s != t {
      var x, y := PutU32(Crc(pre + s)), PutU32(Crc(pre + t));
      assert a == pre + s + x && b == pre + t + y;
      assert x[4 - |s|..] == y[4 - |s|..] by { SameEnd(a, b, n, i, x, y); }
      CrcEdge.EdgeBurst(pre, s, t);
      CrcEdge.TwinIsBlind(s, t);
      CrcEdge.TwinDiffers(s);
      SameLengths(r, q, i);
      assert s[0] == Body(r)[i] && t[0] == Body(q)[i];
      assert HasTwin(r);
      TwinBody(r);
    }
  }

  lemma SameEnd(a: seq<byte>, b: seq<byte>, n: nat, i: nat, x: seq<byte>, y: seq<byte>)
    requires |a| == |b| == n + 4 && |x| == |y| == 4 && a[n..] == x && b[n..] == y
    requires n - 4 < i < n && DiffersOnlyIn(a, b, i, i + 4)
    ensures x[4 - (n - i)..] == y[4 - (n - i)..]
  {
    forall j | i + 4 - n <= j < 4
      ensures x[j] == y[j]
    {
      assert x[j] == a[n + j] && y[j] == b[n + j];
    }
  }

  /** No two records of one size have encodings that differ in four consecutive bytes only, except a record
      and its twin. */
  lemma CrcSeparates(r: Record, q: Record, i: nat)
    requires r.Valid() && q.Valid() && r.Size() == q.Size()
    requires DiffersOnlyIn(Encode(r), Encode(q), i, i + 4) && i + 4 <= r.Size()
    ensures Encode(q) == Encode(r) || (HasTwin(r) && Encode(q) == Encode(Twin(r)))
  {
    hide Header, Body, GetU16, GetU32, GetU64, PutU16, PutU32, PutU64, Crc, Twin;
    var n := r.Size() - CRC_LEN;
    var a, b := Encode(r), Encode(q);
    assert a[..n] == Body(r) && b[..n] == Body(q);
    assert a[n..] == PutU32(Crc(Body(r))) && b[n..] == PutU32(Crc(Body(q)));
    if i + 4 == r.Size() {
      assert a[..n] == b[..n];
    } else if i > r.Size() - 8 {
      EdgeSeparates(r, q, i);
    } else {
      assert a[n..] == b[n..];
      U32RoundTrip(Crc(Body(r)));
      U32RoundTrip(Crc(Body(q)));
      var pre, post := Body(r)[..i], Body(r)[i + 4..];
      var s, t := Body(r)[i..i + 4], Body(q)[i..i + 4];
      assert Body(r) == pre + s + post;
      assert Body(q) == pre + t + post;
      if s != t {
        DetectsBurst(pre, s, t, post);
        assert false;
      }
    }
  }

  /** Every change within four consecutive bytes of a record makes it undecodable, whatever follows it in
      the file, except the one change to its twin. */
  lemma BurstIsError(r: Record, bad: seq<byte>, i: nat, rest: seq<byte>)
    requires r.Valid()
    requires |bad| == r.Size() && bad != Encode(r) && DiffersOnlyIn(Encode(r), bad, i, i + 4) && i + 4 <= r.Size()
    ensures Decode(bad + rest) == Error <==> !(HasTwin(r) && bad == Encode(Twin(r)))
  {
    hide GetU16, GetU32, GetU64, PutU16, PutU32, PutU64, Crc, Encode, Twin;
    if !Decode(bad + rest).Error? {
      BurstKeepsLength(r, bad, i, rest);
      assert Decode(bad + rest).Ok?;
      EncodeDecode(bad + rest);
      assert (bad + rest)[..r.Size()] == bad;
      CrcSeparates(r, Decode(bad + rest).record, i);
    }
    if HasTwin(r) && bad == Encode(Twin(r)) {
      DecodeEncode(Twin(r), rest);
    }
  }

  /** In particular, changing any one byte of a record makes it undecodable. */
  lemma AnyByteChangeIsError(r: Record, j: nat, b: byte, rest: seq<byte>)
    requires r.Valid()
    requires j < r.Size() && b != Encode(r)[j]
    ensures Decode(Encode(r)[j := b] + rest) == Error
  {
    hide Encode, Decode, Twin;
    var bad := Encode(r)[j := b];
    var i := if j + 4 <= r.Size() then j else r.Size() - 4;
    assert bad[j] != Encode(r)[j];
    BurstIsError(r, bad, i, rest);
    if HasTwin(r) {
      TwinIsClose(r);
      var n := r.Size() - 6;
      assert bad[n] == Encode(r)[n] || bad[n + 1] == Encode(r)[n + 1];
    }
  }

  // ------------------------------------------------------------ encoding in place

  /** pk_wal_record_encode: fills the caller's buffer field by field, or refuses and leaves it alone. */
  method EncodeInto(r: Record, buf: array<byte>, at: nat) returns (n: int)
    requires at <= buf.Length
    modifies buf
    ensures n == if r.Valid() && r.Size() <= buf.Length - at then r.Size() else -1
    ensures n < 0 ==> buf[..] == old(buf[..])
    ensures n >= 0 ==> buf[..] == Splice(old(buf[..]), at, Encode(r))
  {
    hide Header, Splice, PutU32, Crc;
    if !r.Valid() || r.Size() > buf.Length - at {
      return -1;
    }
    ghost var was := buf[..];
    EncodeHeaderInto(r, buf, at);
    Append(buf, at + HEADER_LEN, r.key, was, at, Header(r));
    if |r.val| > 0 {
      Append(buf, at + HEADER_LEN + |r.key|, r.val, was, at, Header(r) + r.key);
    }
    assert Header(r) + r.key + r.val == if |r.val| > 0 then Body(r) else Header(r) + r.key;
    SpliceSlice(was, at, Body(r));
    var crc := Compute(buf[..][at..at + r.Size() - CRC_LEN]);
    Append(buf, at + r.Size() - CRC_LEN, PutU32(crc), was, at, Body(r));
    n := r.Size();
  }

  method EncodeHeaderInto(r: Record, buf: array<byte>, at: nat)
    requires r.Valid() && at + r.Size() <= buf.Length
    modifies buf
    ensures buf[..] == Splice(old(buf[..]), at, Header(r))
  {
    hide Splice, GetU16, GetU32, GetU64, PutU16, PutU32, PutU64;
    ghost var was := buf[..];
    ghost var done := PutU32(MAGIC);
    StartSplice(was, at);
    assert [] + done == done;
    Append(buf, at, PutU32(MAGIC), was, at, []);
    Append(buf, at + 4, PutU16(VERSION), was, at, done);
    done := done + PutU16(VERSION);
    Append(buf, at + 6, [r.opcode, 0], was, at, done);
    done := done + [r.opcode, 0];
    Append(buf, at + 8, PutU32(r.Size()), was, at, done);
    done := done + PutU32(r.Size());
    Append(buf, at + 12, PutU64(r.sequence), was, at, done);
    done := done + PutU64(r.sequence);
    Append(buf, at + 20, PutU32(|r.key|), was, at, done);
    done := done + PutU32(|r.key|);
    Append(buf, at + 24, PutU32(|r.val|), was, at, done);
  }
}
