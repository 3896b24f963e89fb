/**
 The in-memory store of src/hashtable.c: 1,024 chains striped over 256 lock shards,
 refining a finite map.
 */
module HashTable {
  import opened Bytes
  import Bits

  type Key = seq<byte>
  type Val = seq<byte>

  const BUCKETS: nat := 1024
  const SHARDS: nat := 256
  const PER_SHARD: nat := 4

  const FNV_BASIS: u64 := 0xcbf2_9ce4_8422_2325
  const FNV_PRIME: u64 := 0x0000_0100_0000_01b3

  // ------------------------------------------------------------ routing

  function Fnv(h: u64, key: Key): u64
    decreases |key|
  {
    if key == [] then h
    else Fnv((Bits.Xor(h, key[0]) * FNV_PRIME) % 0x1_0000_0000_0000_0000, key[1..])
  }

  /** pk_table_hash: FNV-1a over the raw key bytes. */
  method Hash(key: Key) returns (h: u64)
    ensures h == Fnv(FNV_BASIS, key)
  {
    h := FNV_BASIS;
    for i := 0 to |key|
      invariant Fnv(h, key[i..]) == Fnv(FNV_BASIS, key)
    {
      assert key[i..][1..] == key[i + 1..];
      h := (Bits.Xor(h, key[i]) * FNV_PRIME) % 0x1_0000_0000_0000_0000;
    }
  }

  /** FNV-1a, read from the other end: the last byte is mixed in last, with the 64-bit prime, and nothing
      hashes to the 64-bit offset basis. */
  lemma {:induction false} HashOfLast(key: Key, b: byte)
    ensures Fnv(FNV_BASIS, []) == 0xcbf2_9ce4_8422_2325
    ensures Fnv(FNV_BASIS, key + [b])
         == Bits.Xor(Fnv(FNV_BASIS, key), b) * 0x100_0000_01b3 % 0x1_0000_0000_0000_0000
  {
    FnvLast(FNV_BASIS, key, b);
  }

  lemma {:induction false} FnvLast(h: u64, key: Key, b: byte)
    ensures Fnv(h, key + [b]) == Bits.Xor(Fnv(h, key), b) * FNV_PRIME % 0x1_0000_0000_0000_0000
    decreases |key|
  {
    hide Bits.Xor;
    if key == [] {
      assert key + [b] == [b] && [b][1..] == [];
    } else {
      assert (key + [b])[1..] == key[1..] + [b];
      FnvLast((Bits.Xor(h, key[0]) * FNV_PRIME) % 0x1_0000_0000_0000_0000, key[1..], b);
    }
  }

  /** The low eight hash bits choose the shard, the next two the chain inside it. */
  function ShardOf(key: Key): (s: nat)
    ensures s < SHARDS
  {
    Fnv(FNV_BASIS, key) % BUCKETS % SHARDS
  }

  function BucketOf(key: Key): (b: nat)
    ensures b < PER_SHARD
  {
    Fnv(FNV_BASIS, key) % BUCKETS / SHARDS
  }

  /** Where chain BucketOf(key) of shard ShardOf(key) sits when shards are laid out in order. */
  function Slot(key: Key): (s: nat)
    ensures s < BUCKETS
  {
    ShardOf(key) * PER_SHARD + BucketOf(key)
  }

  /** route_of: hashes the key once and takes the hash apart. */
  method Route(key: Key) returns (slot: nat)
    ensures slot == Slot(key)
  {
    var h := Hash(key);
    var index := h % BUCKETS;
    slot := index % SHARDS * PER_SHARD + index / SHARDS;
  }

  /** Eight bits of the hash and the two above them, whatever lies above those. */
  lemma RouteIsLowBits(key: Key, high: nat, chain: nat, shard: nat)
    requires Fnv(FNV_BASIS, key) == high * 1024 + chain * 256 + shard && chain < 4 && shard < 256
    ensures ShardOf(key) == shard && BucketOf(key) == chain && Slot(key) == shard * 4 + chain
  {
    hide Fnv;
    assert Fnv(FNV_BASIS, key) % 1024 == chain * 256 + shard;
  }

  /** Distinct (shard, chain) pairs are distinct slots, so keys of different shards never share one. */
  lemma SlotIdentifiesChain(k: Key, l: Key)
    ensures Slot(k) == Slot(l) <==> ShardOf(k) == ShardOf(l) && BucketOf(k) == BucketOf(l)
  {
    hide ShardOf, BucketOf;
  }

  /** What another shard's lock protects is elsewhere. */
  lemma OtherShards(key: Key)
    ensures forall k: Key :: ShardOf(k) != ShardOf(key) ==> Slot(k) != Slot(key)
  {
    hide ShardOf, Slot;
    forall k: Key | ShardOf(k) != ShardOf(key)
      ensures Slot(k) != Slot(key)
    {
      SlotIdentifiesChain(k, key);
    }
  }

  // ------------------------------------------------------------ the table

  datatype Result = Ok | NotFound | NoMem | TooBig | Invalid

  class Node {
    const key: Key
    var val: Val
    var next: Node?

    constructor (key: Key, val: Val, next: Node?)
      ensures this.key == key && this.val == val && this.next == next
    {
      this.key, this.val, this.next := key, val, next;
    }
  }

  ghost predicate Linked(chain: seq<Node>, i: nat)
    requires i < |chain|
    reads chain[i]
  {
    chain[i].next == (if i + 1 < |chain| then chain[i + 1] else null)
  }

  /** A chain: each node points at the next, every key routes here and none appears twice. */
  ghost predicate IsChain(head: Node?, chain: seq<Node>, slot: nat)
    reads chain
  {
    && head == (if chain == [] then null else chain[0])
    && (forall i :: 0 <= i < |chain| ==>
         && Linked(chain, i)
         && Slot(chain[i].key) == slot)
    && (forall i, j :: 0 <= i < j < |chain| ==> chain[i].key != chain[j].key)
  }

  /** The chain holds exactly the entries of m that route to it. */
  ghost predicate Holds(m: map<Key, Val>, chain: seq<Node>, slot: nat)
    reads chain
  {
    && (forall i :: 0 <= i < |chain| ==> chain[i].key in m && m[chain[i].key] == chain[i].val)
    && (forall k :: k in m && Slot(k) == slot ==> exists i :: 0 <= i < |chain| && chain[i].key == k)
  }

  ghost predicate Stored(m: map<Key, Val>, head: Node?, chain: seq<Node>, slot: nat)
    reads chain
  {
    IsChain(head, chain, slot) && Holds(m, chain, slot)
  }

  /** Walks one chain, remembering the node whose link leads to the current one. */
  method Walk(head: Node?, key: Key, ghost chain: seq<Node>, ghost slot: nat)
    returns (n: Node?, prev: Node?, ghost at: nat)
    requires IsChain(head, chain, slot)
    ensures at <= |chain|
    ensures n == (if at < |chain| then chain[at] else null)
    ensures prev == (if at == 0 then null else chain[at - 1])
    ensures if n == null then forall i :: 0 <= i < |chain| ==> chain[i].key != key else n.key == key
  {
    hide Slot;
    n, prev, at := head, null, 0;
    while n != null && n.key != key
      invariant at <= |chain|
      invariant n == if at < |chain| then chain[at] else null
      invariant prev == if at == 0 then null else chain[at - 1]
      invariant forall i :: 0 <= i < at ==> chain[i].key != key
      decreases |chain| - at
    {
      n, prev, at := n.next, n, at + 1;
    }
  }

  /** Leads the link that led to n past it, be it the bucket head or a predecessor's. */
  method Bypass(buckets: array<Node?>, slot: nat, n: Node, prev: Node?,
                ghost m: map<Key, Val>, ghost chain: seq<Node>, ghost at: nat)
    requires slot < buckets.Length && Stored(m, buckets[slot], chain, slot)
    requires at < |chain| && n == chain[at] && prev == (if at == 0 then null else chain[at - 1])
    modifies buckets, prev
    ensures forall b :: 0 <= b < buckets.Length && b != slot ==> buckets[b] == old(buckets[b])
    ensures Stored(m - {n.key}, buckets[slot], chain[..at] + chain[at + 1..], slot)
  {
    hide Slot, IsChain, Holds, RoutesHere, Covers;
    ChainFacts(m, buckets[slot], chain, slot);
    assert Linked(chain, at);
    if prev == null {
      buckets[slot] := n.next;
    } else {
      prev.next := n.next;
    }
    forall i | 0 <= i < |chain| && i + 1 != at
      ensures Linked(chain, i)
    {
      assert old(Linked(chain, i)) && chain[i].next == old(chain[i].next);
    }
    StoredUnlink(m, buckets[slot], chain, at, slot);
  }

  class Table {
    var buckets: array<Node?>
    var count: nat
    ghost var chains: seq<seq<Node>>
    ghost var M: map<Key, Val>
    ghost var Repr: set<object>

    ghost predicate Valid()
      reads this, Repr
      ensures Valid() ==> this in Repr
    {
      && this in Repr && buckets in Repr
      && buckets.Length == BUCKETS == |chains|
      && (forall b, n :: 0 <= b < BUCKETS && n in chains[b] ==> n in Repr)
      && (forall b :: 0 <= b < BUCKETS ==> Stored(M, buckets[b], chains[b], b))
      && count == |M|
    }

    constructor ()
      ensures Valid() && fresh(Repr) && M == map[]
    {
      buckets := new Node?[BUCKETS](_ => null);
      count := 0;
      chains := seq(BUCKETS, _ => []);
      M := map[];
      Repr := {this, buckets};
    }

    method Find(key: Key, slot: nat) returns (n: Node?, prev: Node?, ghost at: nat)
      requires Valid() && slot == Slot(key)
      ensures n == null <==> key !in M
      ensures n != null ==>
                && at < |chains[Slot(key)]| && n == chains[Slot(key)][at] && n.key == key
                && prev == (if at == 0 then null else chains[Slot(key)][at - 1])
    {
      hide Slot;
      assert Stored(M, buckets[slot], chains[slot], slot);
      n, prev, at := Walk(buckets[slot], key, chains[slot], slot);
    }

    /** Copies the value out, unless it is absent or larger than the caller's buffer. */
    method Get(key: Key, cap: nat) returns (r: Result, val: Val)
      requires Valid()
      ensures r == if key == [] then Invalid
                   else if key !in M then NotFound
                   else if |M[key]| > cap then TooBig
                   else Ok
      ensures val == if r == Ok then M[key] else []
    {
      hide Slot;
      if key == [] {
        return Invalid, [];
      }
      ghost var at;
      var n, prev;
      var slot := Route(key);
      n, prev, at := Find(key, slot);
      if n == null {
        return NotFound, [];
      }
      assert Stored(M, buckets[slot], chains[slot], slot);
      if |n.val| > cap {
        return TooBig, [];
      }
      return Ok, n.val;
    }

    /** Overwrites in place or pushes a new node at the head of its chain; either allocation may
        fail, and then nothing changes. Only the key's own chain is touched. */
    method Set(key: Key, val: Val, valAlloc: bool, nodeAlloc: bool) returns (r: Result)
      requires Valid()
      modifies Repr
      ensures Valid() && fresh(Repr - old(Repr)) && buckets == old(buckets)
      ensures r == if key == [] then Invalid
                   else if |val| > 0 && !valAlloc then NoMem
                   else if key !in old(M) && !nodeAlloc then NoMem
                   else Ok
      ensures M == if r == Ok then old(M)[key := val] else old(M)
      ensures forall b :: 0 <= b < BUCKETS && b != Slot(key) ==> Untouched(b)
      ensures forall k: Key :: ShardOf(k) != ShardOf(key) ==> Untouched(Slot(k))
    {
      hide Slot, ShardOf, Stored;
      NodesRoute();
      OtherShards(key);
      if key == [] {
        return Invalid;
      }
      if |val| > 0 && !valAlloc {
        return NoMem;
      }
      ghost var at;
      var n, prev;
      var slot := Route(key);
      n, prev, at := Find(key, slot);
      if n != null {
        Overwrite(n, at, val);
        return Ok;
      }
      if !nodeAlloc {
        return NoMem;
      }
      Push(key, val, slot);
      return Ok;
    }

    /** Unlinks through whichever link leads to the node, the bucket head or a predecessor. */
    method Del(key: Key) returns (r: Result)
      requires Valid()
      modifies Repr
      ensures Valid() && Repr == old(Repr) && buckets == old(buckets)
      ensures r == if key == [] then Invalid else if key in old(M) then Ok else NotFound
      ensures M == old(M) - (if r == Ok then {key} else {})
      ensures forall b :: 0 <= b < BUCKETS && b != Slot(key) ==> Untouched(b)
      ensures forall k: Key :: ShardOf(k) != ShardOf(key) ==> Untouched(Slot(k))
    {
      hide Slot, ShardOf, Stored;
      NodesRoute();
      OtherShards(key);
      if key == [] {
        return Invalid;
      }
      ghost var at;
      var n, prev;
      var slot := Route(key);
      n, prev, at := Find(key, slot);
      if n == null {
        return NotFound;
      }
      Unlink(n, prev, slot, at);
      return Ok;
    }

    twostate predicate Untouched(b: nat)
      reads this, Repr
      requires b < |chains| && b < |old(chains)|
      requires forall i :: 0 <= i < |chains[b]| ==> chains[b][i] in Repr
    {
      && chains[b] == old(chains[b])
      && forall i :: 0 <= i < |chains[b]| ==> unchanged(chains[b][i])
    }

    /** Chains the key does not route to keep holding the map, if the rest of the map and
        their nodes are as before. */
    twostate lemma OthersKeep(key: Key)
      requires old(Valid())
      requires buckets == old(buckets) && |chains| == BUCKETS
      requires forall b :: 0 <= b < BUCKETS && b != Slot(key) ==>
                 chains[b] == old(chains[b]) && buckets[b] == old(buckets[b])
      requires forall b, i :: 0 <= b < BUCKETS && b != Slot(key) && 0 <= i < |old(chains[b])| ==>
                 unchanged(old(chains[b][i]))
      requires M - {key} == old(M) - {key}
      ensures forall b :: 0 <= b < BUCKETS && b != Slot(key) ==> Stored(M, buckets[b], chains[b], b)
    {
      hide Slot, IsChain, Holds;
      forall b | 0 <= b < BUCKETS && b != Slot(key)
        ensures Stored(M, buckets[b], chains[b], b)
      {
        assert old(Stored(M, buckets[b], chains[b], b));
        assert forall i :: 0 <= i < |chains[b]| ==> unchanged(chains[b][i]);
        StoredElsewhere(old(M), M, key, buckets[b], chains[b], b);
      }
    }

    lemma NodesRoute()
      requires Valid()
      ensures forall b, i :: 0 <= b < BUCKETS && 0 <= i < |chains[b]| ==> Slot(chains[b][i].key) == b
    {
      hide Slot;
      forall b, i | 0 <= b < BUCKETS && 0 <= i < |chains[b]|
        ensures Slot(chains[b][i].key) == b
      {
        assert Stored(M, buckets[b], chains[b], b);
      }
    }

    method Overwrite(n: Node, ghost at: nat, val: Val)
      requires Valid()
      requires at < |chains[Slot(n.key)]| && n == chains[Slot(n.key)][at]
      modifies n`val, this`M
      ensures Valid()
      ensures M == old(M)[n.key := val]
    {
      hide Slot, IsChain, Holds, RoutesHere, Covers;
      ghost var slot, was := Slot(n.key), M;
      NodesRoute();
      ghost var chain := chains[slot];
      assert Stored(M, buckets[slot], chain, slot);
      ChainFacts(M, buckets[slot], chain, slot);
      n.val := val;
      M := M[n.key := val];
      forall i | 0 <= i < |chain|
        ensures Linked(chain, i)
      {
        assert old(Linked(chain, i)) && chain[i].next == old(chain[i].next);
      }
      StoredOverwrite(was, buckets[slot], chain, at, slot);
      OthersKeep(n.key);
    }

    method Push(key: Key, val: Val, slot: nat)
      requires Valid() && key !in M && slot == Slot(key)
      modifies this, buckets
      ensures Valid() && fresh(Repr - old(Repr)) && buckets == old(buckets)
      ensures M == old(M)[key := val]
      ensures |chains| == |old(chains)|
      ensures forall b :: 0 <= b < BUCKETS && b != Slot(key) ==> chains[b] == old(chains[b])
    {
      hide Slot, IsChain, Holds;
      ghost var was, chain, head := M, chains[slot], buckets[slot];
      assert Stored(M, head, chain, slot);
      var node := new Node(key, val, buckets[slot]);
      buckets[slot] := node;
      count := count + 1;
      chains := chains[slot := [node] + chain];
      M := M[key := val];
      Repr := Repr + {node};
      StoredPush(was, head, chain, node, slot);
      OthersKeep(key);
    }

    method Unlink(n: Node, prev: Node?, slot: nat, ghost at: nat)
      requires Valid() && slot == Slot(n.key)
      requires at < |chains[slot]| && n == chains[slot][at]
      requires prev == (if at == 0 then null else chains[slot][at - 1])
      modifies this, buckets, prev
      ensures Valid() && Repr == old(Repr) && buckets == old(buckets)
      ensures M == old(M) - {n.key}
      ensures |chains| == |old(chains)|
      ensures forall b :: 0 <= b < BUCKETS && b != slot ==> chains[b] == old(chains[b])
    {
      hide Slot, Stored;
      ghost var chain := chains[slot];
      NodesRoute();
      InMap(slot, at);
      Bypass(buckets, slot, n, prev, M, chain, at);
      assert forall b, i :: 0 <= b < BUCKETS && b != slot && 0 <= i < |chains[b]| ==> unchanged(chains[b][i]);
      StillFrom(chain, at);
      Forget(n.key, slot, chain[..at] + chain[at + 1..]);
    }

    /** The rest of an unlink: the counter, and what the table now stands for. */
    method Forget(key: Key, slot: nat, ghost shorter: seq<Node>)
      requires this in Repr && buckets in Repr && buckets.Length == BUCKETS == |chains| && slot == Slot(key)
      requires forall b, n :: 0 <= b < BUCKETS && n in chains[b] ==> n in Repr
      requires forall b :: 0 <= b < BUCKETS && b != slot ==> Stored(M, buckets[b], chains[b], b)
      requires Stored(M - {key}, buckets[slot], shorter, slot) && forall n :: n in shorter ==> n in chains[slot]
      requires key in M && count == |M|
      modifies this`count, this`chains, this`M
      ensures Valid() && M == old(M) - {key} && chains == old(chains)[slot := shorter]
    {
      hide Slot, Stored;
      RemovedSize(M, key);
      ghost var was := M;
      count := count - 1;
      chains := chains[slot := shorter];
      M := M - {key};
      forall b | 0 <= b < BUCKETS
        ensures Stored(M, buckets[b], chains[b], b)
      {
        if b != slot {
          StoredElsewhere(was, M, key, buckets[b], chains[b], b);
        }
      }
    }

    lemma InMap(slot: nat, at: nat)
      requires Valid() && slot < BUCKETS && at < |chains[slot]|
      ensures chains[slot][at].key in M && count == |M|
    {
      hide Slot;
      assert Stored(M, buckets[slot], chains[slot], slot);
    }
  }

  /** A change at one key does not concern chains it does not route to. */
  lemma StoredElsewhere(m: map<Key, Val>, m': map<Key, Val>, key: Key, head: Node?, chain: seq<Node>, slot: nat)
    requires Stored(m, head, chain, slot) && Slot(key) != slot
    requires m - {key} == m' - {key}
    ensures Stored(m', head, chain, slot)
  {
    hide Slot;
    forall k | k != key
      ensures (k in m <==> k in m') && (k in m ==> m[k] == m'[k])
    {
      assert k in m <==> k in m - {key};
      assert k in m' <==> k in m' - {key};
    }
  }

  lemma StillFrom(chain: seq<Node>, at: nat)
    requires at < |chain|
    ensures forall n :: n in chain[..at] + chain[at + 1..] ==> n in chain
  {
  }

  lemma RemovedSize(m: map<Key, Val>, key: Key)
    ensures |m - {key}| == |m| - if key in m then 1 else 0
  {
    assert (m - {key}).Keys == m.Keys - {key};
  }

  lemma KeysPush(chain: seq<Node>, node: Node, slot: nat)
    requires RoutesHere(chain, slot) && Slot(node.key) == slot
    requires forall i :: 0 <= i < |chain| ==> chain[i].key != node.key
    ensures RoutesHere([node] + chain, slot)
  {
    hide Slot;
    var longer := [node] + chain;
    assert forall i :: 0 < i < |longer| ==> longer[i] == chain[i - 1];
  }

  lemma LinksPush(head: Node?, chain: seq<Node>, node: Node, i: nat)
    requires head == (if chain == [] then null else chain[0]) && node.next == head && i <= |chain|
    requires forall j :: 0 <= j < |chain| ==> Linked(chain, j)
    ensures Linked([node] + chain, i)
  {
    var longer := [node] + chain;
    if i > 0 {
      assert longer[i] == chain[i - 1] && Linked(chain, i - 1);
    }
  }

  lemma ChainPush(head: Node?, chain: seq<Node>, node: Node, slot: nat)
    requires IsChain(head, chain, slot)
    requires node.next == head && Slot(node.key) == slot
    requires forall i :: 0 <= i < |chain| ==> chain[i].key != node.key
    ensures IsChain(node, [node] + chain, slot)
  {
    hide Slot, Linked;
    KeysPush(chain, node, slot);
    forall i | 0 <= i < |chain| + 1
      ensures Linked([node] + chain, i)
    {
      LinksPush(head, chain, node, i);
    }
  }

  lemma HoldsPush(m: map<Key, Val>, chain: seq<Node>, node: Node, slot: nat)
    requires Holds(m, chain, slot) && node.key !in m
    ensures Holds(m[node.key := node.val], [node] + chain, slot)
  {
    hide Slot;
    var m', longer := m[node.key := node.val], [node] + chain;
    forall i | 0 <= i < |longer|
      ensures longer[i].key in m' && m'[longer[i].key] == longer[i].val
    {
      assert i > 0 ==> longer[i] == chain[i - 1];
    }
    forall k | k in m' && Slot(k) == slot
      ensures exists i :: 0 <= i < |longer| && longer[i].key == k
    {
      if k == node.key {
        assert longer[0].key == k;
      } else {
        var i :| 0 <= i < |chain| && chain[i].key == k;
        assert longer[i + 1].key == k;
      }
    }
  }

  lemma StoredPush(m: map<Key, Val>, head: Node?, chain: seq<Node>, node: Node, slot: nat)
    requires Stored(m, head, chain, slot)
    requires node.next == head && Slot(node.key) == slot && node.key !in m
    ensures Stored(m[node.key := node.val], node, [node] + chain, slot)
  {
    hide Slot, IsChain;
    ChainPush(head, chain, node, slot);
    HoldsPush(m, chain, node, slot);
  }

  ghost predicate RoutesHere(chain: seq<Node>, slot: nat)
  {
    && (forall i :: 0 <= i < |chain| ==> Slot(chain[i].key) == slot)
    && (forall i, j :: 0 <= i < j < |chain| ==> chain[i].key != chain[j].key)
  }

  ghost predicate Covers(m: map<Key, Val>, chain: seq<Node>, slot: nat)
  {
    && (forall i :: 0 <= i < |chain| ==> chain[i].key in m)
    && (forall k :: k in m && Slot(k) == slot ==> exists i :: 0 <= i < |chain| && chain[i].key == k)
  }

  /** The parts of Stored, of which RoutesHere and Covers do not depend on the heap. */
  lemma ChainFacts(m: map<Key, Val>, head: Node?, chain: seq<Node>, slot: nat)
    requires Stored(m, head, chain, slot)
    ensures head == (if chain == [] then null else chain[0])
    ensures forall i :: 0 <= i < |chain| ==> Linked(chain, i)
    ensures RoutesHere(chain, slot) && Covers(m, chain, slot)
    ensures forall i :: 0 <= i < |chain| ==> chain[i].key in m && m[chain[i].key] == chain[i].val
    ensures forall i, j :: 0 <= i < j < |chain| ==> chain[i] != chain[j]
  {
    hide Slot;
  }

  lemma StoredOverwrite(m: map<Key, Val>, head: Node?, chain: seq<Node>, at: nat, slot: nat)
    requires at < |chain|
    requires head == chain[0]
    requires forall i :: 0 <= i < |chain| ==> Linked(chain, i)
    requires RoutesHere(chain, slot) && Covers(m, chain, slot)
    requires forall i :: 0 <= i < |chain| && i != at ==> chain[i].val == m[chain[i].key]
    ensures Stored(m[chain[at].key := chain[at].val], head, chain, slot)
  {
    hide Slot;
  }

  lemma KeysUnlink(chain: seq<Node>, at: nat, slot: nat)
    requires at < |chain| && RoutesHere(chain, slot)
    ensures RoutesHere(chain[..at] + chain[at + 1..], slot)
  {
    hide Slot;
    var shorter := chain[..at] + chain[at + 1..];
    assert forall i :: 0 <= i < |shorter| ==> shorter[i] == chain[if i < at then i else i + 1];
  }

  lemma LinksUnlink(chain: seq<Node>, at: nat, i: nat)
    requires at < |chain| && i < |chain| - 1
    requires forall j :: 0 <= j < |chain| && j + 1 != at ==> Linked(chain, j)
    requires at > 0 ==> chain[at - 1].next == (if at + 1 < |chain| then chain[at + 1] else null)
    ensures Linked(chain[..at] + chain[at + 1..], i)
  {
    var shorter := chain[..at] + chain[at + 1..];
    var c := if i < at then i else i + 1;
    assert shorter[i] == chain[c];
    assert c + 1 != at ==> Linked(chain, c);
    if i + 1 < |shorter| {
      assert shorter[i + 1] == chain[if i + 1 < at then i + 1 else i + 2];
    }
  }

  lemma ChainUnlink(head: Node?, chain: seq<Node>, at: nat, slot: nat)
    requires at < |chain| && RoutesHere(chain, slot)
    requires forall i :: 0 <= i < |chain| && i + 1 != at ==>
               Linked(chain, i)
    requires at > 0 ==> chain[at - 1].next == (if at + 1 < |chain| then chain[at + 1] else null)
    requires head == if at > 0 then chain[0] else if |chain| > 1 then chain[1] else null
    ensures IsChain(head, chain[..at] + chain[at + 1..], slot)
  {
    hide Slot, Linked;
    var shorter := chain[..at] + chain[at + 1..];
    KeysUnlink(chain, at, slot);
    forall i | 0 <= i < |shorter|
      ensures Linked(shorter, i)
    {
      LinksUnlink(chain, at, i);
    }
  }

  lemma HoldsUnlink(m: map<Key, Val>, chain: seq<Node>, at: nat, slot: nat)
    requires at < |chain| && RoutesHere(chain, slot) && Covers(m, chain, slot)
    requires forall i :: 0 <= i < |chain| ==> m[chain[i].key] == chain[i].val
    ensures Holds(m - {chain[at].key}, chain[..at] + chain[at + 1..], slot)
  {
    hide Slot;
    var m', shorter := m - {chain[at].key}, chain[..at] + chain[at + 1..];
    forall i | 0 <= i < |shorter|
      ensures shorter[i].key in m' && m'[shorter[i].key] == shorter[i].val
    {
      assert shorter[i] == chain[if i < at then i else i + 1];
    }
    forall k | k in m' && Slot(k) == slot
      ensures exists i :: 0 <= i < |shorter| && shorter[i].key == k
    {
      var i :| 0 <= i < |chain| && chain[i].key == k;
      assert shorter[if i < at then i else i - 1] == chain[i];
    }
  }

  lemma StoredUnlink(m: map<Key, Val>, head: Node?, chain: seq<Node>, at: nat, slot: nat)
    requires at < |chain|
    requires RoutesHere(chain, slot) && Covers(m, chain, slot)
    requires forall i :: 0 <= i < |chain| ==> m[chain[i].key] == chain[i].val
    requires forall i :: 0 <= i < |chain| && i + 1 != at ==>
               Linked(chain, i)
    requires at > 0 ==> chain[at - 1].next == (if at + 1 < |chain| then chain[at + 1] else null)
    requires head == if at > 0 then chain[0] else if |chain| > 1 then chain[1] else null
    ensures Stored(m - {chain[at].key}, head, chain[..at] + chain[at + 1..], slot)
  {
    hide Slot, RoutesHere, IsChain, Holds;
    ChainUnlink(head, chain, at, slot);
    HoldsUnlink(m, chain, at, slot);
  }
}
