/**
 The group-commit writer of src/wal.c: a linked FIFO of requests, batches taken off its
 front, encoded into one growing buffer, appended in as many writes as it takes, synced once.
 */
module WalWriter {
  import opened Bytes
  import opened WalRecord
  import opened WalScan
  import LogFile

  datatype Error = NoError | Eshutdown | Eoverflow | Enomem | Einval | Eio

  class Request {
    var record: Record
    var next: Request?

    constructor (record: Record)
      ensures this.record == record && next == null
    {
      this.record, this.next := record, null;
    }
  }

  ghost predicate Linked(queue: seq<Request>, i: nat)
    requires i < |queue|
    reads queue[i]
  {
    queue[i].next == (if i + 1 < |queue| then queue[i + 1] else null)
  }

  class Queue {
    var head: Request?
    var tail: Request?
    var queued: nat
    var nextSequence: u64
    var stopping: bool
    ghost var contents: seq<Request>

    ghost predicate Valid()
      reads this, contents
    {
      && head == (if contents == [] then null else contents[0])
      && tail == (if contents == [] then null else contents[|contents| - 1])
      && queued == |contents|
      && (forall i :: 0 <= i < |contents| ==> Linked(contents, i))
      && (forall i, j :: 0 <= i < j < |contents| ==> contents[i] != contents[j])
    }

    constructor (first: u64)
      ensures Valid() && contents == [] && nextSequence == first && !stopping
    {
      head, tail, queued, nextSequence, stopping, contents := null, null, 0, first, false, [];
    }

    /** pk_wal_submit: gives the request the next sequence number and the last place in the queue,
        unless the writer is stopping or the numbers have run out. */
    method Submit(request: Request) returns (error: Error)
      requires Valid() && request !in contents
      modifies this, request, tail
      ensures Valid() && stopping == old(stopping)
      ensures error == if stopping then Eshutdown else if old(nextSequence) == 0 then Eoverflow else NoError
      ensures error != NoError ==>
                && contents == old(contents)
                && nextSequence == old(nextSequence)
                && request.record == old(request.record)
      ensures error == NoError ==>
                && contents == old(contents) + [request]
                && request.record == old(request.record).(sequence := old(nextSequence))
                && nextSequence == if old(nextSequence) == MAX_U64 then 0 else old(nextSequence) + 1
      ensures forall r :: r in old(contents) ==> r.record == old(r.record)
    {
      if stopping {
        return Eshutdown;
      }
      if nextSequence == 0 {
        return Eoverflow;
      }
      request.record := request.record.(sequence := nextSequence);
      nextSequence := if nextSequence == MAX_U64 then 0 else nextSequence + 1;
      request.next := null;
      if tail == null {
        head := request;
      } else {
        tail.next := request;
      }
      tail := request;
      queued := queued + 1;
      contents := contents + [request];
      forall i | 0 <= i < |contents|
        ensures Linked(contents, i)
      {
        if i + 2 < |contents| {
          assert old(Linked(contents, i));
        }
      }
      return NoError;
    }

    /** take_batch: moves up to max requests off the front, in order. */
    method TakeBatch(batch: array<Request?>) returns (count: nat)
      requires Valid()
      modifies this, batch, contents
      ensures Valid() && stopping == old(stopping) && nextSequence == old(nextSequence)
      ensures count == if |old(contents)| < batch.Length then |old(contents)| else batch.Length
      ensures contents == old(contents)[count..]
      ensures forall i :: 0 <= i < count ==> batch[i] == old(contents)[i]
      ensures forall r :: r in old(contents) ==> r.record == old(r.record)
    {
      count := 0;
      ghost var all := contents;
      while count < batch.Length && head != null
        invariant count <= batch.Length && count <= |all|
        invariant contents == all[count..] && queued == |contents|
        invariant head == (if contents == [] then null else contents[0])
        invariant contents != [] ==> tail == contents[|contents| - 1]
        invariant forall i :: 0 <= i < |contents| ==> Linked(contents, i)
        invariant forall i :: 0 <= i < count ==> batch[i] == all[i]
        invariant forall r :: r in all ==> r.record == old(r.record)
        invariant stopping == old(stopping) && nextSequence == old(nextSequence)
        decreases queued
      {
        label taking:
        var request := head;
        assert Linked(contents, 0);
        head := request.next;
        request.next := null;
        batch[count] := request;
        count := count + 1;
        queued := queued - 1;
        ghost var was := contents;
        contents := contents[1..];
        forall i | 0 <= i < |contents|
          ensures Linked(contents, i)
        {
          assert contents[i] == was[i + 1] && contents[i] != request;
          assert old@taking(Linked(was, i + 1));
        }
      }
      if head == null {
        tail := null;
      }
    }
  }

  function TotalSize(rs: seq<Record>): nat
  {
    if rs == [] then 0 else TotalSize(rs[..|rs| - 1]) + rs[|rs| - 1].Size()
  }

  lemma {:induction false} EncodedSize(rs: seq<Record>)
    requires AllValid(rs)
    ensures |EncodeAll(rs)| == TotalSize(rs)
  {
    hide Encode, EncodeAll;
    if rs == [] {
      EncodeNothing();
    } else {
      var n := |rs| - 1;
      EncodedSize(rs[..n]);
      LogExtends(rs, n);
      assert rs[..n + 1] == rs;
    }
  }

  lemma EncodeNothing()
    ensures EncodeAll([]) == []
  {
  }

  /** Every length is in bounds and the sizes add up to something a size_t holds. */
  predicate Sized(batch: seq<Record>)
  {
    && (forall i :: 0 <= i < |batch| ==> 0 < |batch[i].key| <= MAX_KEY && |batch[i].val| <= MAX_VAL)
    && TotalSize(batch) <= SIZE_MAX
  }

  class Writer {
    var buf: array<byte>
    var sticky: Error
    const file: LogFile.File

    constructor (file: LogFile.File)
      ensures this.file == file && sticky == NoError && fresh(buf) && buf.Length == 0
    {
      this.file, this.sticky := file, NoError;
      buf := new byte[0];
    }

    /** The bytes a batch needs, unless a record's lengths are out of bounds or the sum overflows. */
    method Needed(batch: seq<Record>) returns (error: Error, needed: nat)
      ensures error == if Sized(batch) then NoError else Eoverflow
      ensures error == NoError ==> needed == TotalSize(batch) <= SIZE_MAX
    {
      needed := 0;
      for i := 0 to |batch|
        invariant needed == TotalSize(batch[..i]) <= SIZE_MAX
        invariant forall k :: 0 <= k < i ==> 0 < |batch[k].key| <= MAX_KEY && |batch[k].val| <= MAX_VAL
      {
        var size := RecordSize(|batch[i].key|, |batch[i].val|);
        assert batch[..i + 1][..i] == batch[..i];
        if size == 0 || needed > SIZE_MAX - size {
          TotalSizeGrows(batch, i + 1);
          return Eoverflow, needed;
        }
        needed := needed + size;
      }
      assert batch[..|batch|] == batch;
      error := NoError;
    }

    /** Doubles the capacity until the batch fits. */
    method Reserve(needed: nat, realloc: bool) returns (error: Error)
      requires needed <= SIZE_MAX
      modifies this`buf
      ensures error == if needed <= old(buf.Length) || realloc then NoError else Enomem
      ensures error == NoError ==> needed <= buf.Length
      ensures buf == old(buf) || fresh(buf)
    {
      error := NoError;
      if needed > buf.Length {
        var capacity := if buf.Length > 0 then buf.Length else 4096;
        while capacity < needed
          invariant capacity > 0
          decreases needed - capacity
        {
          if capacity > SIZE_MAX / 2 {
            capacity := needed;
            break;
          }
          capacity := capacity * 2;
        }
        if !realloc {
          return Enomem;
        }
        buf := new byte[capacity];
      }
    }

    /** What encoding a batch comes to, with a buffer of this capacity. */
    static function EncodeError(batch: seq<Record>, capacity: nat, realloc: bool): Error
    {
      if !Sized(batch) then Eoverflow
      else if TotalSize(batch) > capacity && !realloc then Enomem
      else if !AllValid(batch) then Einval
      else NoError
    }

    /** encode_batch: the buffer starts with the encodings of the batch, in order. */
    method EncodeBatch(batch: seq<Record>, realloc: bool) returns (error: Error, bytes: nat)
      modifies this`buf, buf
      ensures buf == old(buf) || fresh(buf)
      ensures error == EncodeError(batch, old(buf.Length), realloc)
      ensures error == NoError ==>
                && AllValid(batch)
                && bytes == |EncodeAll(batch)| <= buf.Length
                && buf[..bytes] == EncodeAll(batch)
    {
      hide Encode, EncodeAll;
      bytes := 0;
      var needed;
      error, needed := Needed(batch);
      if error != NoError {
        return;
      }
      error := Reserve(needed, realloc);
      if error != NoError {
        return;
      }
      EncodeNothing();
      for i := 0 to |batch|
        invariant buf == old(buf) || fresh(buf)
        invariant AllValid(batch[..i]) && TotalSize(batch) <= buf.Length
        invariant bytes == |EncodeAll(batch[..i])| <= buf.Length
        invariant buf[..bytes] == EncodeAll(batch[..i])
      {
        var n := EncodeInto(batch[i], buf, bytes);
        if n < 0 {
          assert !AllValid(batch) by {
            if AllValid(batch) {
              EncodedSize(batch[..i]);
              assert batch[..i + 1][..i] == batch[..i];
              TotalSizeGrows(batch, i + 1);
            }
          }
          return Einval, bytes;
        }
        ghost var longer := batch[..i + 1];
        assert longer[..i] == batch[..i] && longer[..i + 1] == longer;
        LogExtends(longer, i);
        bytes := bytes + n;
      }
      assert batch[..|batch|] == batch;
    }

    /** write_all: keeps writing what is left; an error leaves some prefix appended. */
    method WriteAll(bytes: nat) returns (error: Error, ghost written: nat)
      requires bytes <= buf.Length
      modifies file`content, file`failed
      ensures error == (if file.failed == old(file.failed) then NoError else Eio)
      ensures error != NoError ==> file.failed == old(file.failed) + [LogFile.Appending]
      ensures written <= bytes
      ensures file.content == old(file.content) + buf[..written]
      ensures error == NoError <==> written == bytes
    {
      written := 0;
      var at := 0;
      assert old(file.content) + buf[..0] == file.content;
      while at < bytes
        invariant at == written <= bytes && file.failed == old(file.failed)
        invariant file.content == old(file.content) + buf[..at]
        decreases bytes - at
      {
        var n := file.Append(buf[at..bytes]);
        if n <= 0 {
          return Eio, at;
        }
        assert buf[..at] + buf[at..bytes][..n] == buf[..at + n];
        at := at + n;
        written := at;
      }
      error := NoError;
    }

    /** The part of writer_main between taking a batch and completing it. Success means the
        whole batch is appended and everything in the file is synced; after the first failure
        nothing is appended any more and every later batch gets that same error. */
    method Commit(batch: seq<Record>, realloc: bool) returns (error: Error, ghost written: nat)
      modifies this`sticky, this`buf, buf, file
      ensures buf == old(buf) || fresh(buf)
      ensures written > 0 || error == NoError ==> AllValid(batch) && written <= |EncodeAll(batch)|
      ensures file.content == old(file.content) + if AllValid(batch) && written <= |EncodeAll(batch)|
                                                  then EncodeAll(batch)[..written] else []
      ensures error == NoError ==>
                && old(sticky) == NoError
                && written == |EncodeAll(batch)|
                && file.durable == file.content
      ensures error != NoError ==> file.durable == old(file.durable)
      ensures old(sticky) == NoError ==>
                var encoding := EncodeError(batch, old(buf.Length), realloc);
                if encoding != NoError then error == encoding && file.failed == old(file.failed)
                else if error == NoError then file.failed == old(file.failed)
                else
                  && error == Eio
                  && file.failed == old(file.failed) + [if written < |EncodeAll(batch)| then LogFile.Appending
                                                        else LogFile.Syncing]
      ensures sticky == error
      ensures old(sticky) != NoError ==> error == old(sticky) && written == 0 && file.content == old(file.content)
    {
      hide Encode, EncodeAll;
      error, written := sticky, 0;
      var bytes := 0;
      if error == NoError {
        error, bytes := EncodeBatch(batch, realloc);
      }
      if error == NoError {
        error, written := WriteAll(bytes);
        assert buf[..written] == buf[..bytes][..written];
      }
      if error == NoError {
        var ok := file.Sync();
        if !ok {
          error := Eio;
        }
      }
      if error != NoError && sticky == NoError {
        sticky := error;
      }
    }
  }

  lemma {:induction false} TotalSizeGrows(rs: seq<Record>, k: nat)
    requires k <= |rs|
    ensures TotalSize(rs[..k]) <= TotalSize(rs)
  {
    if k == |rs| {
      assert rs[..k] == rs;
    } else {
      var n := |rs| - 1;
      assert rs[..n][..k] == rs[..k];
      TotalSizeGrows(rs[..n], k);
    }
  }
}
