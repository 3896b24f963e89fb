/**
 What recovery is meant to compute: one pass over the whole log file, and what that
 pass makes of intact, torn and damaged logs.
 */
module WalScan {
  import opened Bytes
  import opened WalRecord

  datatype Repair = NoRepair | Truncated | Corrupt | BadSequence

  datatype Scan = Scan(records: seq<Record>, valid: nat, last: u64, repair: Repair)

  /** Accepts records with consecutive sequence numbers until the file ends or stops making sense. */
  function ScanFrom(file: seq<byte>, last: u64): Scan
    decreases |file|
  {
    if file == [] then Scan([], 0, last, NoRepair)
    else
      match Decode(file)
      case Incomplete => Scan([], 0, last, Truncated)
      case Error => Scan([], 0, last, Corrupt)
      case Ok(r, n) =>
        if last == MAX_U64 || r.sequence != last + 1 then Scan([], 0, last, BadSequence)
        else
          EncodeDecode(file);
          Prepend([r], n, ScanFrom(file[n..], r.sequence))
  }

  function Prepend(rs: seq<Record>, n: nat, s: Scan): Scan
  {
    s.(records := rs + s.records, valid := n + s.valid)
  }

  predicate AllValid(rs: seq<Record>)
  {
    forall i :: 0 <= i < |rs| ==> rs[i].Valid()
  }

  /** Valid records numbered last + 1, last + 2, ... */
  ghost predicate IsLog(rs: seq<Record>, last: u64)
  {
    && last + |rs| <= MAX_U64
    && forall i :: 0 <= i < |rs| ==> rs[i].Valid() && rs[i].sequence == last + 1 + i
  }

  function EncodeAll(rs: seq<Record>): seq<byte>
    requires AllValid(rs)
  {
    if rs == [] then [] else Encode(rs[0]) + EncodeAll(rs[1..])
  }

  lemma {:induction false} EncodeAllConcat(rs: seq<Record>, qs: seq<Record>)
    requires AllValid(rs)
    requires AllValid(qs)
    ensures EncodeAll(rs + qs) == EncodeAll(rs) + EncodeAll(qs)
  {
    hide Encode;
    if rs == [] {
      assert rs + qs == qs;
    } else {
      assert (rs + qs)[1..] == rs[1..] + qs;
      EncodeAllConcat(rs[1..], qs);
    }
  }

  lemma EncodeAllOne(r: Record)
    requires r.Valid()
    ensures EncodeAll([r]) == Encode(r)
  {
    hide Encode;
    assert [r][1..] == [];
  }

  // ------------------------------------------------------------ what the pass accepts

  lemma ScanNext(file: seq<byte>, last: u64, r: Record, n: nat)
    requires Decode(file) == Ok(r, n) && n <= |file| && last != MAX_U64 && r.sequence == last + 1
    ensures ScanFrom(file, last) == Prepend([r], n, ScanFrom(file[n..], r.sequence))
  {
    hide Decode;
    EncodeDecode(file);
  }

  /** A well-formed log is accepted whole, and the pass goes on with whatever follows. */
  lemma {:induction false} ScanOfLog(rs: seq<Record>, last: u64, tail: seq<byte>)
    requires IsLog(rs, last)
    ensures ScanFrom(EncodeAll(rs) + tail, last)
         == Prepend(rs, |EncodeAll(rs)|, ScanFrom(tail, last + |rs|))
    decreases |rs|
  {
    hide Decode, Encode, ScanFrom;
    if rs == [] {
      assert EncodeAll(rs) + tail == tail;
      assert rs + ScanFrom(tail, last).records == ScanFrom(tail, last).records;
    } else {
      var r, rest := rs[0], EncodeAll(rs[1..]) + tail;
      assert EncodeAll(rs) + tail == Encode(r) + rest;
      DecodeEncode(r, rest);
      assert (Encode(r) + rest)[r.Size()..] == rest;
      ScanNext(Encode(r) + rest, last, r, r.Size());
      ScanOfLog(rs[1..], r.sequence, tail);
      assert [r] + (rs[1..] + ScanFrom(tail, last + |rs|).records) == rs + ScanFrom(tail, last + |rs|).records;
    }
  }

  /** Whatever the file, the accepted part is a well-formed log, its encoding is exactly the
      bytes kept, and nothing is repaired if and only if every byte was kept. */
  lemma {:induction false} ScanShape(file: seq<byte>, last: u64)
    ensures var s := ScanFrom(file, last);
            && IsLog(s.records, last)
            && s.last == last + |s.records|
            && s.valid <= |file|
            && EncodeAll(s.records) == file[..s.valid]
            && (s.repair.NoRepair? <==> s.valid == |file|)
    decreases |file|
  {
    hide Decode, Encode;
    var s := ScanFrom(file, last);
    if file != [] && Decode(file).Ok? && last != MAX_U64 && Decode(file).record.sequence == last + 1 {
      var r, n := Decode(file).record, Decode(file).consumed;
      EncodeDecode(file);
      ScanShape(file[n..], r.sequence);
      var t := ScanFrom(file[n..], r.sequence);
      assert s.records == [r] + t.records && s.records[1..] == t.records;
      assert file[..s.valid] == file[..n] + file[n..][..t.valid];
    }
  }

  /** The pass stops at the first place where the rest does not start with a whole record of the next number,
      and the kind of repair says what is there instead. */
  lemma {:induction false} ScanStops(file: seq<byte>, last: u64)
    ensures var s := ScanFrom(file, last);
            && s.valid <= |file|
            && var rest := file[s.valid..];
               match s.repair
               case NoRepair => rest == []
               case Truncated => rest != [] && Decode(rest).Incomplete?
               case Corrupt => Decode(rest).Error?
               case BadSequence => Decode(rest).Ok? && (s.last == MAX_U64 || Decode(rest).record.sequence != s.last + 1)
    decreases |file|
  {
    hide Decode;
    if file != [] && Decode(file).Ok? && last != MAX_U64 && Decode(file).record.sequence == last + 1 {
      var r, n := Decode(file).record, Decode(file).consumed;
      EncodeDecode(file);
      ScanStops(file[n..], r.sequence);
      var t := ScanFrom(file[n..], r.sequence);
      assert file[n..][t.valid..] == file[n + t.valid..];
    } else {
      assert file[0..] == file;
    }
  }

  /** Recovering again after the tail was cut off replays the same records and repairs nothing. */
  lemma ScanAfterRepair(file: seq<byte>, last: u64)
    ensures var s := ScanFrom(file, last);
            s.valid <= |file| && ScanFrom(file[..s.valid], last) == s.(repair := NoRepair)
  {
    hide Decode, Encode;
    var s := ScanFrom(file, last);
    ScanShape(file, last);
    ScanOfLog(s.records, last, []);
    assert EncodeAll(s.records) + [] == file[..s.valid];
    assert s.records + [] == s.records;
  }

  /** Cutting any file anywhere can only lose records off the end. */
  lemma {:induction false} ScanOfPrefix(file: seq<byte>, k: nat, last: u64)
    requires k <= |file|
    ensures ScanFrom(file[..k], last).records <= ScanFrom(file, last).records
    decreases |file|
  {
    hide Decode;
    var cut := file[..k];
    if cut != [] && Decode(cut).Ok? && last != MAX_U64 && Decode(cut).record.sequence == last + 1 {
      var r, n := Decode(cut).record, Decode(cut).consumed;
      EncodeDecode(cut);
      DecodeStable(cut, file[k..]);
      assert cut + file[k..] == file;
      assert cut[n..] == file[n..][..k - n];
      ScanOfPrefix(file[n..], k - n, r.sequence);
    }
  }

  // ------------------------------------------------------------ torn logs

  /** How many whole records fit in the first k bytes. */
  function WholeRecords(rs: seq<Record>, k: nat): (m: nat)
    requires AllValid(rs)
    ensures m <= |rs|
  {
    if rs == [] || k < rs[0].Size() then 0 else 1 + WholeRecords(rs[1..], k - rs[0].Size())
  }

  lemma {:induction false} WholeRecordsFit(rs: seq<Record>, k: nat)
    requires AllValid(rs)
    ensures var m := WholeRecords(rs, k);
            && |EncodeAll(rs[..m])| <= k
            && (m < |rs| ==> k < |EncodeAll(rs[..m + 1])|)
  {
    hide Encode;
    var m := WholeRecords(rs, k);
    if m > 0 {
      WholeRecordsFit(rs[1..], k - rs[0].Size());
      assert rs[..m][1..] == rs[1..][..m - 1];
      if m < |rs| {
        assert rs[..m + 1][1..] == rs[1..][..m];
      }
    } else if |rs| > 0 {
      assert rs[..1] == [rs[0]];
      EncodeAllOne(rs[0]);
    }
  }

  /** A log cut at any byte recovers exactly the whole records before the cut; the cut is
      noticed if and only if it is not on a record boundary. */
  lemma {:induction false} TornLog(rs: seq<Record>, last: u64, k: nat)
    requires IsLog(rs, last) && k <= |EncodeAll(rs)|
    ensures var m := WholeRecords(rs, k);
            var s := ScanFrom(EncodeAll(rs)[..k], last);
            && s.records == rs[..m]
            && s.valid == |EncodeAll(rs[..m])|
            && s.last == last + m
            && s.repair == if k == |EncodeAll(rs[..m])| then NoRepair else Truncated
  {
    hide Decode, Encode, EncodeAll, WholeRecords;
    var m := WholeRecords(rs, k);
    var file, head := EncodeAll(rs), EncodeAll(rs[..m]);
    WholeRecordsFit(rs, k);
    var tail := file[..k][|head|..];
    if m == |rs| {
      assert rs[..m] == rs;
    } else {
      LogSplits(rs, m);
      assert tail == Encode(rs[m])[..k - |head|];
      DecodeStrictPrefix(rs[m], k - |head|);
    }
    assert file[..k] == head + tail;
    ScanOfLog(rs[..m], last, tail);
    assert rs[..m] + [] == rs[..m];
  }

  // ------------------------------------------------------------ damaged logs

  /** Damage within four consecutive bytes of record m stops the pass right before it, with every earlier
      record kept and nothing after it believed, unless it is the change to the record's twin. */
  lemma DamagedRecord(rs: seq<Record>, last: u64, m: nat, bad: seq<byte>, i: nat, rest: seq<byte>)
    requires IsLog(rs, last) && m < |rs|
    requires |bad| == rs[m].Size() && bad != Encode(rs[m]) && DiffersOnlyIn(Encode(rs[m]), bad, i, i + 4)
    requires i + 4 <= rs[m].Size() && !(HasTwin(rs[m]) && bad == Encode(Twin(rs[m])))
    ensures ScanFrom(EncodeAll(rs[..m]) + bad + rest, last)
         == Scan(rs[..m], |EncodeAll(rs[..m])|, last + m, Corrupt)
  {
    hide Decode, Encode;
    var head := EncodeAll(rs[..m]);
    assert head + bad + rest == head + (bad + rest);
    ScanOfLog(rs[..m], last, bad + rest);
    BurstIsError(rs[m], bad, i, rest);
    assert rs[..m] + [] == rs[..m];
  }

  /** That one change is not noticed: the log is read, whole, with the twin in the record's place. */
  lemma TwinGoesUnnoticed(rs: seq<Record>, last: u64, m: nat)
    requires IsLog(rs, last) && m < |rs| && HasTwin(rs[m])
    ensures var log := rs[m := Twin(rs[m])];
            && AllValid(log)
            && ScanFrom(EncodeAll(log), last) == Scan(log, |EncodeAll(log)|, last + |rs|, NoRepair)
  {
    hide Decode, Encode, Twin;
    var log := rs[m := Twin(rs[m])];
    assert IsLog(log, last);
    ScanOfLog(log, last, []);
    assert EncodeAll(log) + [] == EncodeAll(log) && log + [] == log;
  }

  /** Changing any one byte of a log makes recovery keep exactly the records before the one
      that holds it, and report corruption. */
  lemma AnyByteChangeStopsTheLog(rs: seq<Record>, last: u64, j: nat, b: byte)
    requires IsLog(rs, last) && j < |EncodeAll(rs)| && b != EncodeAll(rs)[j]
    ensures var m := WholeRecords(rs, j);
            ScanFrom(EncodeAll(rs)[j := b], last)
            == Scan(rs[..m], |EncodeAll(rs[..m])|, last + m, Corrupt)
  {
    hide Decode, Encode, EncodeAll, WholeRecords;
    var m := WholeRecords(rs, j);
    var file := EncodeAll(rs);
    WholeRecordsFit(rs, j);
    assert m < |rs| by { assert rs[..|rs|] == rs; }
    var head, rest := EncodeAll(rs[..m]), EncodeAll(rs[m + 1..]);
    LogSplits(rs, m);
    var good := Encode(rs[m]);
    var at := j - |head|;
    assert file[j] == good[at];
    var bad := good[at := b];
    assert file[j := b] == head + (bad + rest);
    AnyByteChangeIsError(rs[m], at, b, rest);
    ScanOfLog(rs[..m], last, bad + rest);
    assert rs[..m] + [] == rs[..m];
  }

  lemma LogSplitsAt(rs: seq<Record>, m: nat)
    requires AllValid(rs)
    requires m <= |rs|
    ensures EncodeAll(rs) == EncodeAll(rs[..m]) + EncodeAll(rs[m..])
  {
    hide EncodeAll;
    assert rs == rs[..m] + rs[m..];
    EncodeAllConcat(rs[..m], rs[m..]);
  }

  lemma LogExtends(rs: seq<Record>, m: nat)
    requires AllValid(rs)
    requires m < |rs|
    ensures EncodeAll(rs[..m + 1]) == EncodeAll(rs[..m]) + Encode(rs[m])
  {
    hide Encode, EncodeAll;
    var last := [rs[m]];
    EncodeAllOne(rs[m]);
    assert rs[..m + 1] == rs[..m] + last;
    EncodeAllConcat(rs[..m], last);
  }

  lemma LogSplits(rs: seq<Record>, m: nat)
    requires AllValid(rs)
    requires m < |rs|
    ensures EncodeAll(rs) == EncodeAll(rs[..m]) + Encode(rs[m]) + EncodeAll(rs[m + 1..])
    ensures |EncodeAll(rs[..m + 1])| == |EncodeAll(rs[..m])| + rs[m].Size()
  {
    hide Encode, EncodeAll;
    LogSplitsAt(rs, m + 1);
    LogExtends(rs, m);
  }
}
