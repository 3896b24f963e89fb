/** What a logged mutation does to the store, and applying one to the table (src/main.c). */
module Mutation {
  import opened Bytes
  import opened Options
  import opened WalRecord
  import HashTable

  type Store = map<seq<byte>, seq<byte>>

  function Apply(m: Store, r: Record): Store
  {
    if r.opcode == OP_SET then m[r.key := r.val] else m - {r.key}
  }

  function Replay(m: Store, rs: seq<Record>): Store
  {
    if rs == [] then m else Apply(Replay(m, rs[..|rs| - 1]), rs[|rs| - 1])
  }

  lemma ReplayExtends(m: Store, rs: seq<Record>, r: Record)
    ensures Replay(m, rs + [r]) == Apply(Replay(m, rs), r)
  {
    assert (rs + [r])[..|rs|] == rs;
  }

  /** What a store says about one key. */
  function ValueAt(m: Store, key: seq<byte>): Option<seq<byte>>
  {
    if key in m then Some(m[key]) else None
  }

  /** The record at this place is the last of its key. */
  predicate LastOfKey(rs: seq<Record>, i: nat)
  {
    i < |rs| && forall j :: i < j < |rs| ==> rs[j].key != rs[i].key
  }

  /** What follows the last record of a key does not touch the key. */
  lemma {:induction false} ReplayTouches(m: Store, rs: seq<Record>, n: nat, key: seq<byte>)
    requires n <= |rs| && forall j :: n <= j < |rs| ==> rs[j].key != key
    ensures ValueAt(Replay(m, rs), key) == ValueAt(Replay(m, rs[..n]), key)
    decreases |rs|
  {
    var k := |rs| - 1;
    if n <= k {
      assert rs[..k][..n] == rs[..n];
      ReplayTouches(m, rs[..k], n, key);
    } else {
      assert rs[..n] == rs;
    }
  }

  /** The last record of a key decides: a set leaves its value there, a delete leaves nothing. */
  lemma ReplayReadsLast(m: Store, rs: seq<Record>, i: nat)
    requires LastOfKey(rs, i)
    ensures ValueAt(Replay(m, rs), rs[i].key) == if rs[i].opcode == OP_SET then Some(rs[i].val) else None
  {
    ReplayTouches(m, rs, i + 1, rs[i].key);
    ReplayExtends(m, rs[..i], rs[i]);
    assert rs[..i + 1] == rs[..i] + [rs[i]];
  }

  /** A key with no record keeps what it had. */
  lemma ReplayReadsNone(m: Store, rs: seq<Record>, key: seq<byte>)
    requires forall j :: 0 <= j < |rs| ==> rs[j].key != key
    ensures ValueAt(Replay(m, rs), key) == ValueAt(m, key)
  {
    ReplayTouches(m, rs, 0, key);
  }

  /** The memory the table is given for one mutation: for a copy of the value, and for a node. */
  datatype Memory = Memory(val: bool, node: bool)

  /** The table has room for the mutation: a set needs a copy of a value that is not empty, and a node for a key
      that is not there yet. */
  predicate Fits(m: Store, r: Record, memory: Memory)
  {
    r.opcode == OP_DEL || ((r.val == [] || memory.val) && (r.key in m || memory.node))
  }

  /** replay_record and apply_durable_mutation: the table takes the mutation if it has room for it, and is
      unchanged otherwise. A delete of an absent key succeeds. */
  method ApplyToTable(table: HashTable.Table, r: Record, memory: Memory) returns (ok: bool)
    requires table.Valid() && r.Valid()
    modifies table.Repr
    ensures table.Valid() && fresh(table.Repr - old(table.Repr))
    ensures ok <==> Fits(old(table.M), r, memory)
    ensures table.M == if ok then Apply(old(table.M), r) else old(table.M)
  {
    if r.opcode == OP_SET {
      var res := table.Set(r.key, r.val, memory.val, memory.node);
      ok := res == HashTable.Ok;
    } else {
      var res := table.Del(r.key);
      ok := res == HashTable.Ok || res == HashTable.NotFound;
    }
  }

  /** What a completion does to the table: a durable mutation is applied, an undurable one is not. */
  method Settle(table: HashTable.Table, r: Record, logged: bool, memory: Memory) returns (ok: bool)
    requires table.Valid() && r.Valid()
    modifies table.Repr
    ensures table.Valid() && fresh(table.Repr - old(table.Repr))
    ensures ok <==> logged && Fits(old(table.M), r, memory)
    ensures table.M == if ok then Apply(old(table.M), r) else old(table.M)
  {
    hide HashTable.Table.Valid;
    ok := false;
    if logged {
      ok := ApplyToTable(table, r, memory);
    }
  }
}
