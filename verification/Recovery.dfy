/**
 pk_wal_recover (src/wal.c): reads the log in chunks of any size, with reads as short as the
 kernel likes, replays each record into the table, and cuts off a bad tail.
 */
module Recovery {
  import opened Bytes
  import opened WalRecord
  import opened WalScan
  import opened Mutation
  import HashTable
  import LogFile
  import opened Buffers

  datatype Error =
    | NoError | Einval | Eoverflow | OpenFailed | Enomem | ReadFailed | ReplayFailed | RepairFailed | CloseFailed

  /** Recovery got to its end; only closing the file may still have failed. */
  predicate Finished(error: Error)
  {
    error == NoError || error == CloseFailed
  }

  datatype Stats = Stats(records: nat, original: nat, valid: nat, discarded: nat, last: u64, repair: Repair)

  /** Why the inner loop stopped. */
  datatype Stop = NeedMore | Bad(repair: Repair) | Aborted

  /** After replaying `done`, the one-pass scan of the whole file still has this part to do. */
  ghost predicate Progress(file: seq<byte>, done: seq<Record>, stats: Stats)
  {
    && stats.valid <= |file|
    && stats.records == |done|
    && ScanFrom(file, 0) == Prepend(done, stats.valid, ScanFrom(file[stats.valid..], stats.last))
  }

  lemma ProgressStep(file: seq<byte>, done: seq<Record>, stats: Stats, r: Record, n: nat)
    requires Progress(file, done, stats)
    requires stats.valid < |file| && Decode(file[stats.valid..]) == Ok(r, n)
    requires stats.last != MAX_U64 && r.sequence == stats.last + 1
    ensures n <= |file| - stats.valid
    ensures Progress(file, done + [r],
                     stats.(records := stats.records + 1, valid := stats.valid + n, last := r.sequence))
  {
    hide Decode, ScanFrom;
    EncodeDecode(file[stats.valid..]);
    var rest := file[stats.valid..];
    var t := ScanFrom(rest[n..], r.sequence);
    ScanNext(rest, stats.last, r, n);
    assert rest[n..] == file[stats.valid + n..];
    assert done + ([r] + t.records) == done + [r] + t.records;
  }

  lemma ProgressStop(file: seq<byte>, done: seq<Record>, stats: Stats, repair: Repair)
    requires Progress(file, done, stats)
    requires ScanFrom(file[stats.valid..], stats.last) == Scan([], 0, stats.last, repair)
    ensures ScanFrom(file, 0) == Scan(done, stats.valid, stats.last, repair)
    ensures stats.records == |done|
  {
    hide ScanFrom;
    assert done + [] == done;
  }

  /** Whatever the replay comes to, the table has room for each record at its turn; `memory` is what the
      allocator gives it for the i-th. */
  ghost predicate AllFit(base: Store, rs: seq<Record>, memory: nat -> Memory)
  {
    forall i :: 0 <= i < |rs| ==> Fits(Replay(base, rs[..i]), rs[i], memory(i))
  }

  lemma FitsOneMore(base: Store, rs: seq<Record>, r: Record, memory: nat -> Memory)
    requires AllFit(base, rs, memory) && Fits(Replay(base, rs), r, memory(|rs|))
    ensures AllFit(base, rs + [r], memory)
  {
    hide Fits, Replay;
    var more := rs + [r];
    forall i | 0 <= i < |more|
      ensures Fits(Replay(base, more[..i]), more[i], memory(i))
    {
      assert more[..i] == if i < |rs| then rs[..i] else rs;
    }
  }

  /** The records replayed so far do not fit together with the next. */
  lemma NextDoesNotFit(base: Store, rs: seq<Record>, done: seq<Record>, memory: nat -> Memory)
    requires done < rs && !Fits(Replay(base, done), rs[|done|], memory(|done|))
    ensures !AllFit(base, rs, memory)
  {
    hide Fits, Replay;
    assert rs[..|done|] == done;
  }

  /** The record the scan is about to accept is the next of all it accepts. */
  lemma ProgressNext(file: seq<byte>, done: seq<Record>, stats: Stats, r: Record, n: nat)
    requires Progress(file, done, stats)
    requires stats.valid < |file| && Decode(file[stats.valid..]) == Ok(r, n)
    requires stats.last != MAX_U64 && r.sequence == stats.last + 1
    ensures done < ScanFrom(file, 0).records && ScanFrom(file, 0).records[|done|] == r
  {
    hide Decode, ScanFrom;
    EncodeDecode(file[stats.valid..]);
    ScanNext(file[stats.valid..], stats.last, r, n);
  }

  /** The inner loop: replays every whole record in buffer[..have]. */
  method Drain(buffer: array<byte>, have: nat, table: HashTable.Table, memory: nat -> Memory, stats: Stats,
               ghost file: seq<byte>, ghost done: seq<Record>, ghost base: Store)
    returns (used: nat, stop: Stop, stats': Stats, ghost done': seq<Record>)
    requires have <= buffer.Length && table.Valid() && buffer !in table.Repr
    requires Progress(file, done, stats) && table.M == Replay(base, done) && AllFit(base, done, memory)
    requires stats.valid + have <= |file| && buffer[..have] == file[stats.valid..stats.valid + have]
    modifies table.Repr
    ensures table.Valid() && fresh(table.Repr - old(table.Repr))
    ensures Progress(file, done', stats') && table.M == Replay(base, done')
    ensures done' <= ScanFrom(file, 0).records
    ensures used <= have && stats'.valid == stats.valid + used
    ensures stats'.original == stats.original && stats'.discarded == stats.discarded && stats'.repair == stats.repair
    ensures stop.NeedMore? ==> used == have || Decode(buffer[used..have]).Incomplete?
    ensures if stop.Aborted? then !AllFit(base, ScanFrom(file, 0).records, memory) else AllFit(base, done', memory)
    ensures stop.Bad? ==> !stop.repair.NoRepair?
    ensures stop.Bad? ==> ScanFrom(file[stats'.valid..], stats'.last) == Scan([], 0, stats'.last, stop.repair)
  {
    hide Decode, ScanFrom, Replay, Progress, AllFit, Fits, HashTable.Table.Valid;
    used, stop, stats', done' := 0, NeedMore, stats, done;
    while used < have
      invariant table.Valid() && fresh(table.Repr - old(table.Repr)) && buffer !in table.Repr
      invariant buffer[..have] == file[stats.valid..stats.valid + have]
      invariant Progress(file, done', stats') && table.M == Replay(base, done') && AllFit(base, done', memory)
      invariant used <= have && stats'.valid == stats.valid + used
      invariant stats'.original == stats.original && stats'.discarded == stats.discarded && stats'.repair == stats.repair
    {
      var view := buffer[used..have];
      ghost var rest := file[stats'.valid..];
      assert view != [] && view == rest[..|view|] && rest == view + rest[|view|..];
      var decoded := Decode(view);
      if decoded.Incomplete? {
        break;
      }
      DecodeStable(view, rest[|view|..]);
      if decoded.Error? {
        stop := Bad(Corrupt);
        ScanOne(rest, stats'.last);
        break;
      }
      EncodeDecode(view);
      if stats'.last == MAX_U64 || decoded.record.sequence != stats'.last + 1 {
        stop := Bad(BadSequence);
        ScanOne(rest, stats'.last);
        break;
      }
      ProgressNext(file, done', stats', decoded.record, decoded.consumed);
      var ok := ApplyToTable(table, decoded.record, memory(stats'.records));
      ProgressCount(file, done', stats');
      if !ok {
        stop := Aborted;
        NextDoesNotFit(base, ScanFrom(file, 0).records, done', memory);
        break;
      }
      FitsOneMore(base, done', decoded.record, memory);
      ReplayExtends(base, done', decoded.record);
      ProgressStep(file, done', stats', decoded.record, decoded.consumed);
      done' := done' + [decoded.record];
      used := used + decoded.consumed;
      stats' := stats'.(records := stats'.records + 1, valid := stats'.valid + decoded.consumed,
                        last := decoded.record.sequence);
    }
    ProgressIsPrefix(file, done', stats');
  }

  lemma ProgressCount(file: seq<byte>, done: seq<Record>, stats: Stats)
    requires Progress(file, done, stats)
    ensures stats.records == |done|
  {
  }

  /** The first step of the one-pass scan. */
  lemma ScanOne(file: seq<byte>, last: u64)
    requires file != []
    ensures Decode(file).Error? ==> ScanFrom(file, last) == Scan([], 0, last, Corrupt)
    ensures Decode(file).Incomplete? ==> ScanFrom(file, last) == Scan([], 0, last, Truncated)
    ensures Decode(file).Ok? && (last == MAX_U64 || Decode(file).record.sequence != last + 1) ==>
              ScanFrom(file, last) == Scan([], 0, last, BadSequence)
  {
    hide Decode;
  }

  /** The error is that of the one system call that failed since; without a failed call there is none, or the
      table ran out of memory. */
  ghost predicate Because(error: Error, before: seq<LogFile.Call>, after: seq<LogFile.Call>)
  {
    match error
    case NoError => after == before
    case ReplayFailed => after == before
    case ReadFailed => after == before + [LogFile.Reading]
    case RepairFailed => after == before + [LogFile.Truncating] || after == before + [LogFile.Syncing]
    case _ => false
  }

  /** repair_tail: truncate to the valid prefix and sync the truncation. */
  method RepairTail(file: LogFile.File, stats: Stats, repair: Repair) returns (error: Error, stats': Stats)
    requires stats.valid <= |file.content| == stats.original
    modifies file
    ensures stats' == stats.(repair := repair, discarded := stats.original - stats.valid)
    ensures file.content == old(file.content) || file.content == old(file.content)[..stats.valid]
    ensures (error == NoError || error == RepairFailed) && Because(error, old(file.failed), file.failed)
    ensures error == NoError ==> file.durable == file.content == old(file.content)[..stats.valid]
    ensures error != NoError ==> file.durable == old(file.durable)
  {
    stats' := stats.(repair := repair, discarded := stats.original - stats.valid);
    var ok := file.Truncate(stats.valid);
    if ok {
      ok := file.Sync();
    }
    error := if ok then NoError else RepairFailed;
  }

  /** The statistics say what the one-pass scan of the whole file says. */
  ghost predicate Agrees(stats: Stats, bytes: seq<byte>)
  {
    var s := ScanFrom(bytes, 0);
    && stats.records == |s.records|
    && stats.original == |bytes|
    && stats.valid == s.valid
    && stats.last == s.last
    && stats.repair == s.repair
    && stats.discarded == |bytes| - s.valid
  }

  ghost predicate Fresh(stats: Stats, bytes: seq<byte>)
  {
    stats.original == |bytes| && stats.discarded == 0 && stats.repair.NoRepair?
  }

  /** Between rounds: the buffer holds the unconsumed bytes read so far, fewer than one record. */
  ghost predicate Between(file: LogFile.File, buffer: array<byte>, have: nat, stats: Stats,
                          bytes: seq<byte>, kept: seq<byte>, done: seq<Record>)
    reads file, buffer
  {
    && file.content == bytes && file.durable == kept
    && Progress(bytes, done, stats)
    && Fresh(stats, bytes)
    && have < MAX_RECORD <= buffer.Length
    && file.pos == stats.valid + have <= |bytes|
    && buffer[..have] == bytes[stats.valid..stats.valid + have]
  }

  /** What recovery may leave behind: with an error, at most the bad tail is gone; without one,
      the statistics and the file are those of the one-pass scan. */
  ghost predicate Left(file: LogFile.File, stats: Stats, error: Error, bytes: seq<byte>,
                       kept: seq<byte>, done: seq<Record>)
    reads file`content, file`durable
  {
    var s := ScanFrom(bytes, 0);
    && s.valid <= |bytes|
    && done <= s.records
    && (file.content == bytes || file.content == bytes[..s.valid])
    && (!Finished(error) ==> file.durable == kept)
    && (Finished(error) ==>
         && done == s.records
         && Agrees(stats, bytes)
         && file.content == bytes[..s.valid]
         && file.durable == if s.repair.NoRepair? then kept else file.content)
  }

  method CutTail(file: LogFile.File, stats: Stats, repair: Repair,
                 ghost bytes: seq<byte>, ghost kept: seq<byte>, ghost done: seq<Record>)
    returns (error: Error, stats': Stats)
    requires file.content == bytes && file.durable == kept
    requires Progress(bytes, done, stats) && Fresh(stats, bytes)
    requires ScanFrom(bytes[stats.valid..], stats.last) == Scan([], 0, stats.last, repair) && !repair.NoRepair?
    modifies file
    ensures Left(file, stats', error, bytes, kept, done)
    ensures error != ReplayFailed && Because(error, old(file.failed), file.failed)
  {
    hide ScanFrom;
    ProgressStop(bytes, done, stats, repair);
    error, stats' := RepairTail(file, stats, repair);
  }

  /** Appends what one read delivers to the unconsumed bytes. */
  method ReadMore(file: LogFile.File, chunk: nat, buffer: array<byte>, have: nat, ghost bytes: seq<byte>, ghost at: nat)
    returns (n: int)
    requires file.content == bytes && 0 < chunk && have + chunk <= buffer.Length
    requires file.pos == at + have <= |bytes| && buffer[..have] == bytes[at..at + have]
    modifies file`pos, file`failed, buffer
    ensures -1 <= n <= chunk
    ensures file.failed == old(file.failed) + if n < 0 then [LogFile.Reading] else []
    ensures n >= 0 ==>
              && file.pos == at + have + n <= |bytes|
              && buffer[..have + n] == bytes[at..at + have + n]
              && (n == 0 ==> file.pos == |bytes|)
  {
    n := file.Read(buffer, have, chunk);
    if n >= 0 {
      assert bytes[at..at + have] + bytes[at + have..at + have + n] == bytes[at..at + have + n];
    }
  }

  /** What is left after the inner loop is less than one record; move it to the front. */
  method Shift(buffer: array<byte>, used: nat, have: nat, ghost bytes: seq<byte>, ghost at: nat) returns (left: nat)
    requires used <= have <= buffer.Length && at + have <= |bytes| && buffer[..have] == bytes[at..at + have]
    requires used == have || Decode(buffer[used..have]).Incomplete?
    modifies buffer
    ensures left == have - used < MAX_RECORD
    ensures left > 0 ==> Decode(buffer[..left]).Incomplete?
    ensures buffer[..left] == bytes[at + used..at + have]
  {
    hide Decode;
    if used < have {
      IncompleteIsShort(buffer[used..have]);
    }
    assert buffer[used..have] == buffer[..have][used..];
    left := have - used;
    if used > 0 {
      Slide(buffer, used, have);
    }
  }

  lemma AtEnd(bytes: seq<byte>, stats: Stats, tail: seq<byte>)
    requires stats.valid <= |bytes| && tail == bytes[stats.valid..] && tail != []
    requires Decode(tail).Incomplete?
    ensures ScanFrom(bytes[stats.valid..], stats.last) == Scan([], 0, stats.last, Truncated)
  {
    hide ScanFrom, Decode;
    ScanOne(tail, stats.last);
  }

  /** The end of a pass that ran out of whole records: bytes left over at the end of the file are a torn
      record and are cut off, otherwise they wait at the front of the buffer for the next read. */
  method KeepRest(file: LogFile.File, buffer: array<byte>, used: nat, have: nat, eof: bool, stats: Stats,
                  ghost bytes: seq<byte>, ghost kept: seq<byte>, ghost done: seq<Record>)
    returns (finished: bool, error: Error, left: nat, stats': Stats)
    requires file.content == bytes && file.durable == kept && MAX_RECORD <= buffer.Length
    requires Progress(bytes, done, stats) && Fresh(stats, bytes)
    requires used <= have <= buffer.Length && used <= stats.valid && file.pos == stats.valid - used + have <= |bytes|
    requires buffer[..have] == bytes[stats.valid - used..file.pos]
    requires used == have || Decode(buffer[used..have]).Incomplete?
    requires eof ==> file.pos == |bytes|
    modifies file, buffer
    ensures finished ==> Left(file, stats', error, bytes, kept, done)
    ensures finished ==> error != ReplayFailed && Because(error, old(file.failed), file.failed)
    ensures !finished ==> Between(file, buffer, left, stats', bytes, kept, done) && unchanged(file)
    ensures !finished ==> error == NoError && (eof ==> left == 0)
  {
    hide ScanFrom, Decode, Progress;
    error, stats' := NoError, stats;
    left := Shift(buffer, used, have, bytes, stats.valid - used);
    finished := eof && left > 0;
    if finished {
      AtEnd(bytes, stats, buffer[..left]);
      error, stats' := CutTail(file, stats, Truncated, bytes, kept, done);
    }
  }

  /** One pass through the outer loop. */
  method Round(file: LogFile.File, chunk: nat, buffer: array<byte>, have: nat, table: HashTable.Table,
               memory: nat -> Memory, stats: Stats,
               ghost bytes: seq<byte>, ghost kept: seq<byte>, ghost done: seq<Record>, ghost base: Store)
    returns (finished: bool, error: Error, have': nat, eof: bool, stats': Stats, ghost done': seq<Record>)
    requires 0 < chunk && buffer.Length == chunk + MAX_RECORD
    requires table.Valid() && file !in table.Repr && buffer !in table.Repr
    requires Between(file, buffer, have, stats, bytes, kept, done) && table.M == Replay(base, done)
    requires AllFit(base, done, memory)
    modifies table.Repr, file, buffer
    ensures table.Valid() && fresh(table.Repr - old(table.Repr)) && table.M == Replay(base, done')
    ensures file !in table.Repr && buffer !in table.Repr
    ensures finished ==> Left(file, stats', error, bytes, kept, done') && Because(error, old(file.failed), file.failed)
    ensures error == ReplayFailed ==> !AllFit(base, ScanFrom(bytes, 0).records, memory)
    ensures error == NoError ==> AllFit(base, done', memory)
    ensures !finished ==> error == NoError && Between(file, buffer, have', stats', bytes, kept, done')
    ensures !finished ==> file.failed == old(file.failed)
    ensures !finished && !eof ==> file.pos > old(file.pos)
    ensures !finished && eof ==> have' == 0 && file.pos == |bytes|
  {
    hide ScanFrom, Decode, Replay, Progress, AllFit, HashTable.Table.Valid;
    assert ScanFrom(bytes, 0).valid <= |bytes| by { ScanShape(bytes, 0); }
    finished, error, have', eof, stats', done' := true, ReadFailed, have, false, stats, done;
    ProgressIsPrefix(bytes, done, stats);
    var n := ReadMore(file, chunk, buffer, have, bytes, stats.valid);
    if n < 0 {
      return;
    }
    eof := n == 0;
    var used, stop;
    used, stop, stats', done' := Drain(buffer, have + n, table, memory, stats, bytes, done, base);
    match stop
    case Aborted =>
      error := ReplayFailed;
    case Bad(repair) =>
      error, stats' := CutTail(file, stats', repair, bytes, kept, done');
    case NeedMore =>
      finished, error, have', stats' := KeepRest(file, buffer, used, have + n, eof, stats', bytes, kept, done');
  }

  /** The outcome of a recovery that opened its file, from the calls that failed meanwhile and from whether the
      records of the log fit the table. */
  ghost predicate Explains(error: Error, before: seq<LogFile.Call>, after: seq<LogFile.Call>, fit: bool)
  {
    && before <= after
    && var calls := after[|before|..];
       && (error == ReadFailed <==> LogFile.Reading in calls)
       && (error == RepairFailed <==> LogFile.Truncating in calls || LogFile.Syncing in calls)
       && (error == ReplayFailed <==> (calls == [] || calls == [LogFile.Closing]) && !fit)
       && (error == CloseFailed <==> calls == [LogFile.Closing] && fit)
       && (error == NoError <==> calls == [] && fit)
  }

  /** close(2) at the end: its failure is reported if nothing else has failed. */
  method Close(file: LogFile.File, error: Error) returns (last: Error)
    modifies file`failed
    ensures file.failed == old(file.failed) || file.failed == old(file.failed) + [LogFile.Closing]
    ensures last == if error == NoError && file.failed != old(file.failed) then CloseFailed else error
  {
    var ok := file.Close();
    last := if ok || error != NoError then error else CloseFailed;
  }

  lemma ClosingExplains(cause: Error, error: Error, start: seq<LogFile.Call>, before: seq<LogFile.Call>,
                        after: seq<LogFile.Call>, fit: bool)
    requires Because(cause, start, before) && (cause == NoError ==> fit) && (cause == ReplayFailed ==> !fit)
    requires after == before || after == before + [LogFile.Closing]
    requires error == if cause == NoError && after != before then CloseFailed else cause
    ensures Explains(error, start, after, fit)
  {
    var calls, first := after[|start|..], before[|start|..];
    assert calls == first || calls == first + [LogFile.Closing];
    if first != [] {
      assert first == [before[|start|]] && calls[0] == first[0];
    }
  }

  /** Everything between opening the file and closing it. */
  method ReplayAll(file: LogFile.File, chunk: nat, table: HashTable.Table, memory: nat -> Memory)
    returns (error: Error, stats: Stats, ghost done: seq<Record>)
    requires 0 < chunk && file.pos == 0
    requires table.Valid() && file !in table.Repr
    modifies table.Repr, file
    ensures table.Valid() && fresh(table.Repr - old(table.Repr)) && table.M == Replay(old(table.M), done)
    ensures Left(file, stats, error, old(file.content), old(file.durable), done)
    ensures Because(error, old(file.failed), file.failed)
    ensures error == ReplayFailed ==> !AllFit(old(table.M), ScanFrom(old(file.content), 0).records, memory)
    ensures error == NoError ==> AllFit(old(table.M), done, memory)
  {
    hide ScanFrom, Decode, Replay, AllFit, HashTable.Table.Valid;
    ghost var bytes, kept, base := file.content, file.durable, table.M;
    assert ScanFrom(bytes, 0).valid <= |bytes| by { ScanShape(bytes, 0); }
    ReplayNothing(base);
    NothingFits(base, memory);
    done := [];
    stats := Stats(0, |file.content|, 0, 0, 0, NoRepair);
    var buffer := new byte[chunk + MAX_RECORD];
    var have, eof := 0, false;
    StartProgress(bytes, stats);
    while !eof || have > 0
      invariant table.Valid() && fresh(table.Repr - old(table.Repr)) && file !in table.Repr && buffer !in table.Repr
      invariant Between(file, buffer, have, stats, bytes, kept, done) && table.M == Replay(base, done)
      invariant AllFit(base, done, memory) && file.failed == old(file.failed)
      invariant eof ==> have == 0 && file.pos == |bytes|
      decreases |bytes| - file.pos, !eof
    {
      var finished;
      finished, error, have, eof, stats, done := Round(file, chunk, buffer, have, table, memory, stats, bytes, kept,
                                                       done, base);
      if finished {
        return;
      }
    }
    ScanEnd(stats.last);
    assert bytes[stats.valid..] == [];
    ProgressStop(bytes, done, stats, NoRepair);
    return NoError, stats, done;
  }

  /** Recovery refines the one-pass scan: whatever the chunk size and however short the reads,
      success means the table is the replay of exactly the records the scan accepts, the
      statistics are the scan's, and the file is exactly the accepted bytes. On failure the
      table holds the replay of some of those records and the file lost at most its bad tail. There is an
      error only for a reason, and each reason has its own. */
  method Recover(file: LogFile.File, chunk: nat, fileOk: bool, bufferAlloc: bool, table: HashTable.Table,
                 memory: nat -> Memory)
    returns (error: Error, stats: Stats, ghost done: seq<Record>)
    requires table.Valid() && file !in table.Repr
    requires file.pos == 0
    modifies table.Repr, file
    ensures table.Valid() && fresh(table.Repr - old(table.Repr))
    ensures table.M == Replay(old(table.M), done)
    ensures Left(file, stats, error, old(file.content), old(file.durable), done)
    ensures error == Einval <==> chunk == 0
    ensures error == Eoverflow <==> chunk > SIZE_MAX - MAX_RECORD
    ensures error == OpenFailed <==> 0 < chunk <= SIZE_MAX - MAX_RECORD && !fileOk
    ensures error == Enomem <==> 0 < chunk <= SIZE_MAX - MAX_RECORD && fileOk && !bufferAlloc
    ensures 0 < chunk <= SIZE_MAX - MAX_RECORD && fileOk && bufferAlloc ==>
              Explains(error, old(file.failed), file.failed,
                       AllFit(old(table.M), ScanFrom(old(file.content), 0).records, memory))
  {
    hide ScanFrom, Decode, Replay, AllFit, HashTable.Table.Valid;
    ReplayNothing(table.M);
    assert ScanFrom(file.content, 0).valid <= |file.content| by { ScanShape(file.content, 0); }
    done := [];
    stats := Stats(0, 0, 0, 0, 0, NoRepair);
    if chunk == 0 {
      return Einval, stats, done;
    }
    if chunk > SIZE_MAX - MAX_RECORD {
      return Eoverflow, stats, done;
    }
    if !fileOk {
      return OpenFailed, stats, done;
    }
    stats := stats.(original := |file.content|);
    if !bufferAlloc {
      return Enomem, stats, done;
    }
    error, stats, done := ReplayAll(file, chunk, table, memory);
    ghost var cause, calls := error, file.failed;
    error := Close(file, error);
    ClosingExplains(cause, error, old(file.failed), calls, file.failed,
                    AllFit(old(table.M), ScanFrom(old(file.content), 0).records, memory));
  }

  lemma NothingFits(base: Store, memory: nat -> Memory)
    ensures AllFit(base, [], memory)
  {
  }

  lemma ReplayNothing(base: Store)
    ensures Replay(base, []) == base
  {
  }

  lemma StartProgress(file: seq<byte>, stats: Stats)
    requires stats.valid == stats.records == stats.last == 0
    ensures Progress(file, [], stats)
  {
    hide ScanFrom;
    assert file[0..] == file;
    assert [] + ScanFrom(file, 0).records == ScanFrom(file, 0).records;
  }

  lemma ProgressIsPrefix(file: seq<byte>, done: seq<Record>, stats: Stats)
    requires Progress(file, done, stats)
    ensures done <= ScanFrom(file, 0).records
  {
    hide ScanFrom;
  }

  lemma ScanEnd(last: u64)
    ensures ScanFrom([], last) == Scan([], 0, last, NoRepair)
  {
  }
}
