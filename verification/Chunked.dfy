/**
 Chunked transfer in the data node (node/grpc_shim/main.cpp): PutChunked reassembles what
 SendChunked emits, FetchChunked what GetChunked streams.
 */
module Chunked {
  import opened Bytes

  type Bytestring = seq<byte>

  const CHUNK: nat := 1024 * 1024
  const MAX_KEY_BYTES: nat := 64 * 1024
  const U32: nat := 0x1_0000_0000

  datatype PutChunk = PutChunk(key: Bytestring, fromReplication: bool,
                               index: u32, totalChunks: u32, totalLength: u64, data: Bytestring)

  datatype GetChunk = GetChunk(index: u32, totalChunks: u32, totalLength: u64, data: Bytestring)

  datatype Status = Good | InvalidArgument | OutOfRange | EngineError

  /** Chunks in a value: one for the empty value, else rounded up. */
  function ChunkCount(len: nat): (n: nat)
    ensures n > 0
    ensures len > 0 ==> (n - 1) * CHUNK < len <= n * CHUNK
  {
    if len == 0 then 1 else (len + CHUNK - 1) / CHUNK
  }

  /** Where chunk i starts. */
  function Cut(len: nat, i: nat): (at: nat)
    ensures at <= len
  {
    if i * CHUNK < len then i * CHUNK else len
  }

  lemma CutGrows(len: nat, i: nat)
    ensures Cut(len, i + 1) == if Cut(len, i) + CHUNK < len then Cut(len, i) + CHUNK else len
    ensures Cut(len, 0) == 0
  {
  }

  /** The i-th stretch of CHUNK bytes. */
  function Piece(value: Bytestring, i: nat): Bytestring
  {
    CutGrows(|value|, i);
    value[Cut(|value|, i)..Cut(|value|, i + 1)]
  }

  function Join(ds: seq<Bytestring>): Bytestring
  {
    if ds == [] then [] else Join(ds[..|ds| - 1]) + ds[|ds| - 1]
  }

  function PutData(stream: seq<PutChunk>): (ds: seq<Bytestring>)
    ensures |ds| == |stream|
  {
    seq(|stream|, i requires 0 <= i < |stream| => stream[i].data)
  }

  function GetData(stream: seq<GetChunk>): (ds: seq<Bytestring>)
    ensures |ds| == |stream|
  {
    seq(|stream|, i requires 0 <= i < |stream| => stream[i].data)
  }

  lemma JoinExtend(ds: seq<Bytestring>, d: Bytestring)
    ensures Join(ds + [d]) == Join(ds) + d
  {
    assert (ds + [d])[..|ds|] == ds;
  }

  // ------------------------------------------------------------ receiving a put

  predicate ValidKey(key: Bytestring)
  {
    0 < |key| <= MAX_KEY_BYTES
  }

  /** Chunk i of a stream that declared `first` may repeat the declaration or leave it out. */
  predicate Continues(first: PutChunk, c: PutChunk, i: nat)
  {
    && c.index == i
    && (c.key == [] || c.key == first.key)
    && (c.totalChunks == 0 || c.totalChunks == first.totalChunks)
    && (c.totalLength == 0 || c.totalLength == first.totalLength)
  }

  /** What the first chunk must declare. */
  predicate Opens(first: PutChunk, max: u64)
  {
    first.index == 0 && ValidKey(first.key) && first.totalChunks > 0 && first.totalLength <= max
  }

  /** A whole stream that keeps its own declarations. */
  ghost predicate WellFormed(stream: seq<PutChunk>, max: u64)
  {
    && stream != []
    && 0 < |stream[0].key| <= 65536
    && (forall i :: 0 <= i < |stream| ==>
         && stream[i].index == i
         && (stream[i].key == stream[0].key || (i > 0 && stream[i].key == []))
         && (stream[i].totalChunks == |stream| || (i > 0 && stream[i].totalChunks == 0))
         && (stream[i].totalLength == stream[0].totalLength <= max || (i > 0 && stream[i].totalLength == 0)))
    && stream[0].totalLength == |Join(PutData(stream))|
  }

  /** The chunk whose declarations are in force at chunk i: the last one the 32-bit counter called 0. */
  function Start(i: nat): (s: nat)
    ensures s <= i < s + U32
  {
    i - i % U32
  }

  /** The counter after chunk i, and where its declarations are. */
  lemma CounterSteps(i: nat)
    ensures (i + 1) % U32 == (i % U32 + 1) % U32
    ensures i % U32 == 0 ==> Start(i) == i
    ensures i % U32 != 0 ==> i > 0 && Start(i) == Start(i - 1)
  {
  }

  /** Chunk i passes every check of the loop. */
  ghost predicate Passes(stream: seq<PutChunk>, i: nat, max: u64)
    requires i < |stream|
  {
    var first := stream[Start(i)];
    && (if i % U32 == 0 then Opens(stream[i], max) else Continues(first, stream[i], i % U32))
    && |Join(PutData(stream[..i + 1]))| <= first.totalLength
    && (i + 1) % U32 <= first.totalChunks
  }

  /** The streams the code takes, of any length: every chunk passes, and the last declarations are met. */
  ghost predicate Taken(stream: seq<PutChunk>, max: u64)
  {
    && stream != []
    && (forall i :: 0 <= i < |stream| ==> Passes(stream, i, max))
    && |stream| % U32 != 0
    && stream[Start(|stream| - 1)].totalChunks == |stream| % U32
    && stream[Start(|stream| - 1)].totalLength == |Join(PutData(stream))|
  }

  /** The first chunk the loop refuses opens a stream, and its only fault is a length above the limit. */
  ghost predicate TooLong(stream: seq<PutChunk>, i: nat, max: u64)
    requires i < |stream|
  {
    && (forall j :: 0 <= j < i ==> Passes(stream, j, max))
    && i % U32 == stream[i].index == 0
    && 0 < |stream[i].key| <= 65536 && stream[i].totalChunks > 0 && stream[i].totalLength > max
  }

  /** Only the first chunk refused can be the one that is too long. */
  lemma RefusedAt(stream: seq<PutChunk>, i: nat, max: u64)
    requires i < |stream| && (forall j :: 0 <= j < i ==> Passes(stream, j, max)) && !Passes(stream, i, max)
    ensures !Taken(stream, max)
    ensures forall k :: 0 <= k < |stream| && TooLong(stream, k, max) ==> k == i
  {
    hide Join, PutData, Start;
    forall k | 0 <= k < |stream|
      ensures TooLong(stream, k, max) ==> k == i
    {
      assert k < i ==> Passes(stream, k, max);
    }
  }

  lemma PassesIsNotTooLong(stream: seq<PutChunk>, max: u64)
    requires forall j :: 0 <= j < |stream| ==> Passes(stream, j, max)
    ensures forall k :: 0 <= k < |stream| ==> !TooLong(stream, k, max)
  {
    hide Join, PutData, Start;
    forall k | 0 <= k < |stream|
      ensures !TooLong(stream, k, max)
    {
      assert Passes(stream, k, max);
    }
  }

  lemma JoinGrows(ds: seq<Bytestring>, k: nat)
    requires k <= |ds|
    ensures |Join(ds[..k])| <= |Join(ds)|
    decreases |ds|
  {
    if k < |ds| {
      assert ds[..|ds| - 1][..k] == ds[..k];
      JoinGrows(ds[..|ds| - 1], k);
    } else {
      assert ds[..k] == ds;
    }
  }

  lemma PutDataExtend(stream: seq<PutChunk>, i: nat)
    requires i < |stream|
    ensures Join(PutData(stream[..i + 1])) == Join(PutData(stream[..i])) + stream[i].data
  {
    assert PutData(stream[..i + 1]) == PutData(stream[..i]) + [stream[i].data];
    JoinExtend(PutData(stream[..i]), stream[i].data);
  }

  lemma PutDataGrows(stream: seq<PutChunk>, i: nat)
    requires i <= |stream|
    ensures |Join(PutData(stream[..i]))| <= |Join(PutData(stream))|
  {
    assert PutData(stream)[..i] == PutData(stream[..i]);
    JoinGrows(PutData(stream), i);
  }

  /** PutChunked, for streams of any length: a key and a value are given to the engine exactly for the
      streams above; they are the key declared last and all the data in order, of the length declared last.
      The buffer never holds more than the node's limit. */
  method PutChunked(stream: seq<PutChunk>, max: u64, engineOk: bool)
    returns (status: Status, stored: bool, key: Bytestring, value: Bytestring, forwards: bool, ghost peak: nat)
    ensures status == Good <==> Taken(stream, max) && engineOk
    ensures status == EngineError <==> Taken(stream, max) && !engineOk
    ensures status == OutOfRange <==> exists i :: 0 <= i < |stream| && TooLong(stream, i, max)
    ensures stored <==> status == Good
    ensures stored ==> engineOk && stream != [] && key == stream[Start(|stream| - 1)].key
    ensures stored ==> value == Join(PutData(stream))
    ensures forwards <==> stored && stream != [] && !stream[Start(|stream| - 1)].fromReplication
    ensures peak <= max
  {
    hide Join, PutData, Start;
    status, stored, forwards, peak := InvalidArgument, false, false, 0;
    key, value := [], [];
    var buffer: Bytestring := [];
    var totalLength: u64, totalChunks: u32, next: u32 := 0, 0, 0;
    var fromReplication := false;
    var i := 0;
    StartJoin(stream);
    while i < |stream|
      invariant i <= |stream| && peak <= max && next == i % U32
      invariant buffer == Join(PutData(stream[..i]))
      invariant forall j :: 0 <= j < i ==> Passes(stream, j, max)
      invariant i > 0 ==>
                  && stream[Start(i - 1)]
                     == PutChunk(key, fromReplication, 0, totalChunks, totalLength, stream[Start(i - 1)].data)
                  && |buffer| <= totalLength <= max
    {
      var c := stream[i];
      CounterSteps(i);
      PutDataExtend(stream, i);
      if c.index != next {
        RefusedAt(stream, i, max);
        return;
      }
      if next == 0 {
        key, fromReplication := c.key, c.fromReplication;
        if !ValidKey(key) {
          RefusedAt(stream, i, max);
          return;
        }
        totalChunks := c.totalChunks;
        if totalChunks == 0 {
          RefusedAt(stream, i, max);
          return;
        }
        totalLength := c.totalLength;
        if totalLength > max {
          assert TooLong(stream, i, max);
          RefusedAt(stream, i, max);
          status := OutOfRange;
          return;
        }
      } else if (c.key != [] && c.key != key)
        || (c.totalChunks != 0 && c.totalChunks != totalChunks)
        || (c.totalLength != 0 && c.totalLength != totalLength) {
        RefusedAt(stream, i, max);
        return;
      }
      if |buffer| + |c.data| > totalLength {
        RefusedAt(stream, i, max);
        return;
      }
      buffer := buffer + c.data;
      peak := if |buffer| > peak then |buffer| else peak;
      next := (next + 1) % U32;
      if next > totalChunks {
        RefusedAt(stream, i, max);
        return;
      }
      i := i + 1;
    }
    assert stream[..i] == stream;
    PassesIsNotTooLong(stream, max);
    if next == 0 || next != totalChunks || |buffer| != totalLength {
      return;
    }
    if !engineOk {
      status := EngineError;
      return;
    }
    status, stored, value := Good, true, buffer;
    forwards := !fromReplication;
  }

  /** "Stored iff it keeps its own declarations" holds below 2^32 chunks and for no longer stream: those
      that keep their declarations are the taken ones short enough not to wrap the counter. */
  lemma KeepsDeclarationsIffShort(stream: seq<PutChunk>, max: u64)
    ensures WellFormed(stream, max) <==> Taken(stream, max) && |stream| < U32
  {
    hide Join, PutData;
    if WellFormed(stream, max) {
      forall i | 0 <= i < |stream|
        ensures Passes(stream, i, max)
      {
        PutDataGrows(stream, i + 1);
      }
    }
    if Taken(stream, max) && |stream| < U32 {
      assert Passes(stream, 0, max);
      forall i | 0 < i < |stream|
        ensures Continues(stream[0], stream[i], i)
      {
        assert Passes(stream, i, max);
      }
    }
  }

  /** A stream that declares 2^32 - 1 empty chunks under one key, sends one more, and then, its counter
      back at 0, declares a single empty chunk under another key. */
  function Wrapping(one: Bytestring, other: Bytestring): (stream: seq<PutChunk>)
    ensures |stream| == U32 + 1
  {
    seq(U32 + 1, i requires 0 <= i <= U32 =>
      if i < U32 then PutChunk(one, false, i, U32 - 1, 0, []) else PutChunk(other, false, 0, 1, 0, []))
  }

  lemma {:induction false} NothingToJoin(ds: seq<Bytestring>)
    requires forall i :: 0 <= i < |ds| ==> ds[i] == []
    ensures Join(ds) == []
  {
    if ds != [] {
      NothingToJoin(ds[..|ds| - 1]);
    }
  }

  /** It is taken, whatever the two keys, and so stored under the second. */
  lemma WrappingIsTaken(one: Bytestring, other: Bytestring, max: u64)
    requires ValidKey(one) && ValidKey(other)
    ensures Taken(Wrapping(one, other), max)
  {
    hide Join, PutData;
    var stream := Wrapping(one, other);
    forall i | 0 <= i < |stream|
      ensures Passes(stream, i, max)
    {
      EmptyData(stream, i + 1);
    }
    EmptyData(stream, |stream|);
    assert stream[..|stream|] == stream;
  }

  lemma EmptyData(stream: seq<PutChunk>, k: nat)
    requires k <= |stream| && forall i :: 0 <= i < |stream| ==> stream[i].data == []
    ensures Join(PutData(stream[..k])) == []
  {
    NothingToJoin(PutData(stream[..k]));
  }

  method StoredUnderAnotherKey(one: Bytestring, other: Bytestring, max: u64)
    returns (stored: bool, key: Bytestring)
    requires ValidKey(one) && ValidKey(other)
    ensures Wrapping(one, other)[0].key == one
    ensures stored && key == other
  {
    hide Join, PutData, Taken;
    WrappingIsTaken(one, other, max);
    var status, value, forwards;
    ghost var peak;
    status, stored, key, value, forwards, peak := PutChunked(Wrapping(one, other), max, true);
  }

  lemma StartJoin(stream: seq<PutChunk>)
    ensures Join(PutData(stream[..0])) == []
  {
  }

  // ------------------------------------------------------------ sending a put

  function PutChunkOf(key: Bytestring, value: Bytestring, i: nat): PutChunk
    requires |value| <= MAX_U64
  {
    PutChunk(if i == 0 then key else [], i == 0,
             i % U32, ChunkCount(|value|) % U32, |value|, Piece(value, i))
  }

  /** SendChunked: the stream as it is written, chunk by chunk. */
  method SendChunked(key: Bytestring, value: Bytestring) returns (stream: seq<PutChunk>)
    requires |value| <= MAX_U64
    ensures |stream| == ChunkCount(|value|)
    ensures forall i :: 0 <= i < |stream| ==> stream[i] == PutChunkOf(key, value, i)
  {
    hide Piece;
    stream := [];
    var total := ChunkCount(|value|);
    for i := 0 to total
      invariant |stream| == i
      invariant forall j :: 0 <= j < i ==> stream[j] == PutChunkOf(key, value, j)
    {
      stream := stream + [PutChunkOf(key, value, i)];
    }
  }

  /** Every chunk but the last carries a mebibyte; the last one carries what is left, nothing only of the
      empty value. */
  lemma PieceSizes(value: Bytestring, i: nat)
    requires i < ChunkCount(|value|)
    ensures i + 1 < ChunkCount(|value|) ==> |Piece(value, i)| == 1048576
    ensures i + 1 == ChunkCount(|value|) ==> |Piece(value, i)| == |value| - 1048576 * i <= 1048576
    ensures |Piece(value, i)| == 0 <==> |value| == 0
  {
    hide ChunkCount;
    CutGrows(|value|, i);
    var n := ChunkCount(|value|);
    assert |value| == 0 ==> n == 1 by { EmptyCount(); }
    if i + 1 < n {
      assert (i + 1) * CHUNK <= (n - 1) * CHUNK;
    }
  }

  function Pieces(value: Bytestring, n: nat): (ds: seq<Bytestring>)
    ensures |ds| == n
  {
    seq(n, i requires 0 <= i < n => Piece(value, i))
  }

  /** The pieces put back together are the value. */
  lemma {:induction false} PiecesJoin(value: Bytestring, k: nat)
    ensures Join(Pieces(value, k)) == value[..Cut(|value|, k)]
  {
    hide Cut, Join;
    if k == 0 {
      CutGrows(|value|, 0);
      NothingJoined(value);
    } else {
      PiecesJoin(value, k - 1);
      CutGrows(|value|, k - 1);
      assert Pieces(value, k) == Pieces(value, k - 1) + [Piece(value, k - 1)];
      JoinExtend(Pieces(value, k - 1), Piece(value, k - 1));
    }
  }

  lemma NothingJoined(value: Bytestring)
    ensures Join(Pieces(value, 0)) == []
  {
  }

  lemma WholeJoin(value: Bytestring)
    ensures Join(Pieces(value, ChunkCount(|value|))) == value
  {
    hide Piece, Join, Pieces;
    PiecesJoin(value, ChunkCount(|value|));
    assert value[..|value|] == value;
  }

  /** What SendChunked emits for a valid key and a value within the limit is well-formed and carries
      exactly that key and value, so PutChunked stores them. */
  lemma SentIsWellFormed(key: Bytestring, value: Bytestring, stream: seq<PutChunk>, max: u64)
    requires ValidKey(key) && |value| <= max && ChunkCount(|value|) < U32
    requires |stream| == ChunkCount(|value|)
    requires forall i :: 0 <= i < |stream| ==> stream[i] == PutChunkOf(key, value, i)
    ensures WellFormed(stream, max)
    ensures stream[0].key == key && Join(PutData(stream)) == value && stream[0].fromReplication
  {
    hide Join, Piece, ChunkCount;
    assert PutData(stream) == Pieces(value, |stream|);
    WholeJoin(value);
  }

  /** A longer stream is never taken: it declares no chunks, or opens a second time without a key. */
  lemma LongIsRefused(key: Bytestring, value: Bytestring, stream: seq<PutChunk>, max: u64)
    requires |value| <= MAX_U64 && |stream| == ChunkCount(|value|) >= U32
    requires forall i :: 0 <= i < |stream| ==> stream[i] == PutChunkOf(key, value, i)
    ensures !Taken(stream, max)
  {
    hide Join, PutData, Piece, ChunkCount;
    if |stream| == U32 {
      assert !Passes(stream, 0, max);
    } else {
      assert !Passes(stream, U32, max);
    }
  }

  /** What one node sends the other stores, if and only if its chunk count fits 32 bits; a longer value
      is refused. */
  method PutRoundTrip(key: Bytestring, value: Bytestring, max: u64)
    returns (status: Status, storedKey: Bytestring, storedValue: Bytestring)
    requires ValidKey(key) && |value| <= max
    ensures status == Good <==> ChunkCount(|value|) < U32
    ensures status == Good ==> storedKey == key && storedValue == value
  {
    hide Join, PutData, Piece, ChunkCount, WellFormed, Taken;
    var stream := SendChunked(key, value);
    if ChunkCount(|value|) < U32 {
      SentIsWellFormed(key, value, stream, max);
      KeepsDeclarationsIffShort(stream, max);
    } else {
      LongIsRefused(key, value, stream, max);
    }
    var stored, forwards;
    ghost var peak;
    status, stored, storedKey, storedValue, forwards, peak := PutChunked(stream, max, true);
  }

  // ------------------------------------------------------------ streaming a get

  /** GetChunked: a miss is an empty stream; a hit streams the value, with every counter 32 bits wide. */
  method GetChunked(value: Bytestring) returns (stream: seq<GetChunk>)
    requires |value| <= MAX_U64
    ensures |stream| == ChunkCount(|value|) % U32
    ensures forall i :: 0 <= i < |stream| ==>
              stream[i] == GetChunk(i, ChunkCount(|value|) % U32, |value|, Piece(value, i))
  {
    hide ChunkCount, Cut;
    stream := [];
    var total: u32 := ChunkCount(|value|) % U32;
    CutGrows(|value|, 0);
    var offset := 0;
    var i: u32 := 0;
    while i < total
      invariant i <= total && |stream| == i
      invariant offset == Cut(|value|, i)
      invariant forall j :: 0 <= j < i ==> stream[j] == GetChunk(j, total, |value|, Piece(value, j))
    {
      CutGrows(|value|, i);
      var n := if CHUNK < |value| - offset then CHUNK else |value| - offset;
      stream := stream + [GetChunk(i, total, |value|, value[offset..offset + n])];
      offset := offset + n;
      i := i + 1;
    }
  }

  /** FetchChunked: indices must count up from zero and the bytes must add up to the first declaration. */
  method FetchChunked(stream: seq<GetChunk>) returns (ok: bool, value: Bytestring)
    ensures ok <==> && stream != []
                    && (forall i :: 0 <= i < |stream| ==> stream[i].index == i % U32)
                    && |Join(GetData(stream))| == stream[0].totalLength
    ensures ok ==> value == Join(GetData(stream))
  {
    hide Join;
    value := [];
    var expected: u32, totalLength: u64, any := 0, 0, false;
    StartGet(stream);
    for i := 0 to |stream|
      invariant expected == i % U32 && (any <==> i > 0)
      invariant any ==> totalLength == stream[0].totalLength
      invariant forall j :: 0 <= j < i ==> stream[j].index == j % U32
      invariant value == Join(GetData(stream[..i]))
    {
      if stream[i].index != expected {
        return false, value;
      }
      if !any {
        totalLength := stream[i].totalLength;
      }
      any := true;
      assert GetData(stream[..i + 1]) == GetData(stream[..i]) + [stream[i].data];
      JoinExtend(GetData(stream[..i]), stream[i].data);
      expected := (expected + 1) % U32;
      value := value + stream[i].data;
    }
    assert stream[..|stream|] == stream;
    ok := any && |value| == totalLength;
  }

  lemma StartGet(stream: seq<GetChunk>)
    ensures Join(GetData(stream[..0])) == []
  {
  }

  /** A value comes back exactly as it is, if and only if its chunk count fits 32 bits; a larger one
      is never mistaken for anything else. */
  method GetRoundTrip(value: Bytestring) returns (ok: bool, fetched: Bytestring)
    requires |value| <= MAX_U64
    ensures ok <==> ChunkCount(|value|) < U32
    ensures ok ==> fetched == value
  {
    hide Join, Piece, ChunkCount;
    var stream := GetChunked(value);
    ok, fetched := FetchChunked(stream);
    assert GetData(stream) == Pieces(value, |stream|);
    if ChunkCount(|value|) < U32 {
      WholeJoin(value);
    } else if |stream| > 0 {
      PiecesJoin(value, |stream|);
      ShortStream(value, |stream|);
    }
  }

  lemma ShortStream(value: Bytestring, n: nat)
    requires n < ChunkCount(|value|)
    ensures n > 0 ==> Cut(|value|, n) < |value|
  {
    hide ChunkCount;
    var c := ChunkCount(|value|);
    if n > 0 {
      assert |value| > 0 by { EmptyCount(); }
      assert n * CHUNK <= (c - 1) * CHUNK;
    }
  }

  lemma EmptyCount()
    ensures ChunkCount(0) == 1
  {
  }
}
