/**
 The canonical context registry (gateway/pulsekv_gateway/registry.py): immutable versions, a
 current-version pointer, and lookups by content hash and alias that must be unambiguous.
 Every write is one transaction: it happens whole or not at all.
 */
module Registry {

  import opened Options

  type Text = string

  datatype Key = Key(namespace: Text, context: Text, version: int)

  datatype Row = Row(text: Text, hash: Text, payload: Text, created: int, deprecated: Option<int>)

  datatype Record = Record(key: Key, row: Row, aliases: seq<Text>)

  /** The tables: versions, the aliases each version declares, the context each alias names, and the
      version each context resolves to. */
  datatype Db = Db(rows: map<Key, Row>, bindings: map<Key, seq<Text>>,
                   owner: map<(Text, Text), Text>, current: map<(Text, Text), int>)

  datatype Outcome = Accepted | HashMismatch | VersionImmutable | Conflict | NotFound

  // ------------------------------------------------------------ the checks of _insert

  predicate SameContext(k: Key, key: Key)
  {
    k.namespace == key.namespace && k.context == key.context
  }

  predicate HasContext(db: Db, key: Key)
  {
    exists k :: k in db.rows && SameContext(k, key)
  }

  predicate NotAbove(db: Db, key: Key)
  {
    exists k :: k in db.rows && SameContext(k, key) && key.version <= k.version
  }

  predicate Live(row: Row)
  {
    row.deprecated.None?
  }

  predicate HashTaken(db: Db, namespace: Text, hash: Text)
  {
    exists k :: k in db.rows && k.namespace == namespace && db.rows[k].hash == hash && Live(db.rows[k])
  }

  predicate AliasTaken(db: Db, r: Record)
  {
    exists a :: a in r.aliases && (r.key.namespace, a) in db.owner && db.owner[(r.key.namespace, a)] != r.key.context
  }

  function InsertOutcome(db: Db, hasher: Text -> Text, r: Record): Outcome
  {
    if hasher(r.row.text) != r.row.hash then HashMismatch
    else if r.key in db.rows then VersionImmutable
    else if NotAbove(db, r.key) then Conflict
    else if Live(r.row) && HashTaken(db, r.key.namespace, r.row.hash) then Conflict
    else if AliasTaken(db, r) then Conflict
    else Accepted
  }

  // ------------------------------------------------------------ what a call does to the tables

  function Owned(owner: map<(Text, Text), Text>, namespace: Text, aliases: seq<Text>, context: Text): map<(Text, Text), Text>
  {
    map o | o in owner.Keys + (set a | a in aliases :: (namespace, a)) :: if o in owner then owner[o] else context
  }

  function Inserted(db: Db, r: Record): Db
  {
    db.(rows := db.rows[r.key := r.row],
        bindings := db.bindings[r.key := r.aliases],
        owner := Owned(db.owner, r.key.namespace, r.aliases, r.key.context))
  }

  function PointedAt(db: Db, key: Key): Db
  {
    db.(current := db.current[(key.namespace, key.context) := key.version])
  }

  datatype Call =
    | Register(record: Record)
    | Publish(record: Record)
    | Deprecate(key: Key, at: int)

  function Result(db: Db, hasher: Text -> Text, call: Call): Outcome
  {
    match call
    case Register(r) => InsertOutcome(db, hasher, r)
    case Publish(r) => InsertOutcome(db, hasher, r)
    case Deprecate(key, at) =>
      if key !in db.rows then NotFound
      else if !Live(db.rows[key]) || at < db.rows[key].created then Conflict
      else Accepted
  }

  function After(db: Db, hasher: Text -> Text, call: Call): Db
  {
    if Result(db, hasher, call) != Accepted then db
    else
      match call
      case Register(r) =>
        if HasContext(db, r.key) then Inserted(db, r) else PointedAt(Inserted(db, r), r.key)
      case Publish(r) => PointedAt(Inserted(db, r), r.key)
      case Deprecate(key, at) => Retired(db, key, at)
  }

  function Run(db: Db, hasher: Text -> Text, calls: seq<Call>): Db
    decreases |calls|
  {
    if calls == [] then db else Run(After(db, hasher, calls[0]), hasher, calls[1..])
  }

  const EMPTY := Db(map[], map[], map[], map[])

  // ------------------------------------------------------------ the invariant

  ghost predicate HashesUnique(db: Db)
  {
    forall k, l ::
      (k in db.rows && l in db.rows && Live(db.rows[k]) && Live(db.rows[l])
       && k.namespace == l.namespace && db.rows[k].hash == db.rows[l].hash) ==> k == l
  }

  ghost predicate AliasesOwned(db: Db)
  {
    && db.bindings.Keys == db.rows.Keys
    && forall k, a :: k in db.bindings && a in db.bindings[k] ==>
         (k.namespace, a) in db.owner && db.owner[(k.namespace, a)] == k.context
  }

  ghost predicate PointersHold(db: Db)
  {
    && (forall c :: c in db.current ==> Key(c.0, c.1, db.current[c]) in db.rows)
    && (forall k :: k in db.rows ==> (k.namespace, k.context) in db.current)
  }

  ghost predicate HashesMatch(db: Db, hasher: Text -> Text)
  {
    forall k :: k in db.rows ==> hasher(db.rows[k].text) == db.rows[k].hash
  }

  ghost predicate Inv(db: Db, hasher: Text -> Text)
  {
    HashesUnique(db) && AliasesOwned(db) && PointersHold(db) && HashesMatch(db, hasher)
  }

  // What no call may undo.

  /** Versions stay; their content never changes, and they are retired at most once. */
  ghost predicate RowsStay(db: Db, db': Db)
  {
    && (forall k :: k in db.rows ==>
         && k in db'.rows
         && db'.rows[k] == db.rows[k].(deprecated := db'.rows[k].deprecated)
         && (db.rows[k].deprecated.Some? ==> db'.rows[k] == db.rows[k]))
    && (forall k :: k in db.bindings ==> k in db'.bindings && db'.bindings[k] == db.bindings[k])
  }

  /** A version added to a context is above all its earlier ones. */
  ghost predicate VersionsRise(db: Db, db': Db)
  {
    forall k, l :: k in db.rows && l in db'.rows && l !in db.rows && SameContext(k, l) ==> k.version < l.version
  }

  /** The current version never goes back. */
  ghost predicate PointersRise(db: Db, db': Db)
  {
    forall c :: c in db.current ==> c in db'.current && db.current[c] <= db'.current[c]
  }

  /** An alias keeps naming its context. */
  ghost predicate OwnersStay(db: Db, db': Db)
  {
    forall o :: o in db.owner ==> o in db'.owner && db'.owner[o] == db.owner[o]
  }

  ghost predicate Grows(db: Db, db': Db)
  {
    RowsStay(db, db') && VersionsRise(db, db') && PointersRise(db, db') && OwnersStay(db, db')
  }

  lemma InsertKeepsHashes(db: Db, hasher: Text -> Text, r: Record)
    requires HashesUnique(db) && HashesMatch(db, hasher) && InsertOutcome(db, hasher, r) == Accepted
    ensures HashesUnique(Inserted(db, r)) && HashesMatch(Inserted(db, r), hasher)
  {
    hide NotAbove, AliasTaken, Owned;
  }

  lemma InsertKeepsAliases(db: Db, hasher: Text -> Text, r: Record)
    requires AliasesOwned(db) && InsertOutcome(db, hasher, r) == Accepted
    ensures AliasesOwned(Inserted(db, r))
  {
    hide NotAbove, HashTaken;
    var db' := Inserted(db, r);
    forall k, a | k in db'.bindings && a in db'.bindings[k]
      ensures (k.namespace, a) in db'.owner && db'.owner[(k.namespace, a)] == k.context
    {
      if k == r.key {
        assert !((k.namespace, a) in db.owner && db.owner[(k.namespace, a)] != k.context);
      }
    }
  }

  lemma InsertKeepsPointers(db: Db, r: Record)
    requires PointersHold(db)
    ensures PointersHold(PointedAt(Inserted(db, r), r.key))
    ensures HasContext(db, r.key) ==> PointersHold(Inserted(db, r))
  {
    hide Owned;
  }

  function Retired(db: Db, key: Key, at: int): Db
    requires key in db.rows
  {
    db.(rows := db.rows[key := db.rows[key].(deprecated := Some(at))])
  }

  lemma DeprecateKeepsHashes(db: Db, hasher: Text -> Text, key: Key, at: int)
    requires HashesUnique(db) && HashesMatch(db, hasher) && key in db.rows
    ensures HashesUnique(Retired(db, key, at)) && HashesMatch(Retired(db, key, at), hasher)
  {
    var db' := Retired(db, key, at);
    forall k | k in db'.rows
      ensures k in db.rows && db'.rows[k].hash == db.rows[k].hash && db'.rows[k].text == db.rows[k].text
      ensures Live(db'.rows[k]) ==> Live(db.rows[k])
    {
    }
  }

  lemma DeprecateKeeps(db: Db, hasher: Text -> Text, key: Key, at: int)
    requires Inv(db, hasher) && key in db.rows
    ensures Inv(Retired(db, key, at), hasher)
  {
    hide HashesUnique, HashesMatch;
    DeprecateKeepsHashes(db, hasher, key, at);
    assert Retired(db, key, at).rows.Keys == db.rows.Keys;
  }

  lemma CallKeeps(db: Db, hasher: Text -> Text, call: Call)
    requires Inv(db, hasher)
    ensures Inv(After(db, hasher, call), hasher)
  {
    hide InsertOutcome, HasContext, Inserted, HashesUnique, AliasesOwned, PointersHold, HashesMatch;
    if Result(db, hasher, call) == Accepted {
      match call
      case Register(r) => InsertKeeps(db, hasher, r);
      case Publish(r) => InsertKeeps(db, hasher, r);
      case Deprecate(key, at) => DeprecateKeeps(db, hasher, key, at);
    }
  }

  lemma InsertKeeps(db: Db, hasher: Text -> Text, r: Record)
    requires Inv(db, hasher) && InsertOutcome(db, hasher, r) == Accepted
    ensures Inv(PointedAt(Inserted(db, r), r.key), hasher)
    ensures HasContext(db, r.key) ==> Inv(Inserted(db, r), hasher)
  {
    hide InsertOutcome, HasContext, Inserted, PointersHold;
    InsertKeepsHashes(db, hasher, r);
    InsertKeepsAliases(db, hasher, r);
    InsertKeepsPointers(db, r);
  }

  lemma InsertRowsStay(db: Db, hasher: Text -> Text, r: Record)
    requires AliasesOwned(db) && InsertOutcome(db, hasher, r) == Accepted
    ensures RowsStay(db, Inserted(db, r)) && OwnersStay(db, Inserted(db, r))
  {
    hide NotAbove, HashTaken, AliasTaken;
  }

  lemma InsertVersionsRise(db: Db, hasher: Text -> Text, r: Record)
    requires PointersHold(db) && InsertOutcome(db, hasher, r) == Accepted
    ensures VersionsRise(db, Inserted(db, r))
    ensures PointersRise(db, PointedAt(Inserted(db, r), r.key))
  {
    hide HashTaken, AliasTaken, Owned;
    var c := (r.key.namespace, r.key.context);
    if c in db.current {
      var k := Key(c.0, c.1, db.current[c]);
      assert k in db.rows && SameContext(k, r.key);
    }
  }

  lemma InsertGrows(db: Db, hasher: Text -> Text, r: Record)
    requires Inv(db, hasher) && InsertOutcome(db, hasher, r) == Accepted
    ensures Grows(db, Inserted(db, r)) && Grows(db, PointedAt(Inserted(db, r), r.key))
  {
    hide InsertOutcome, HashesUnique, AliasesOwned, PointersHold, HashesMatch, Owned;
    InsertRowsStay(db, hasher, r);
    InsertVersionsRise(db, hasher, r);
  }

  lemma CallGrows(db: Db, hasher: Text -> Text, call: Call)
    requires Inv(db, hasher)
    ensures Grows(db, After(db, hasher, call))
  {
    if call.Deprecate? || Result(db, hasher, call) != Accepted {
      hide InsertOutcome, Inserted, Inv;
    } else {
      hide InsertOutcome, Inserted, HasContext, Grows, Inv;
      InsertGrows(db, hasher, call.record);
    }
  }

  // ------------------------------------------------------------ over every sequence of calls

  lemma {:induction false} RunKeeps(db: Db, hasher: Text -> Text, calls: seq<Call>)
    requires Inv(db, hasher)
    ensures Inv(Run(db, hasher, calls), hasher)
    decreases |calls|
  {
    hide Inv, After;
    if calls != [] {
      CallKeeps(db, hasher, calls[0]);
      RunKeeps(After(db, hasher, calls[0]), hasher, calls[1..]);
    }
  }

  lemma GrowsComposes(a: Db, b: Db, c: Db)
    requires Grows(a, b) && Grows(b, c)
    ensures Grows(a, c)
  {
    assert RowsStay(a, c) by { hide VersionsRise, PointersRise, OwnersStay; }
    assert VersionsRise(a, c) by { hide PointersRise, OwnersStay; }
    assert PointersRise(a, c) by { hide RowsStay, VersionsRise, OwnersStay; }
  }

  /** Whatever calls follow, accepted or rejected: stored text, hash and version never change, versions of
      a context only rise, the pointer never goes back and aliases keep naming their context. */
  lemma {:induction false} RunGrows(db: Db, hasher: Text -> Text, calls: seq<Call>)
    requires Inv(db, hasher)
    ensures Grows(db, Run(db, hasher, calls))
    decreases |calls|
  {
    hide Inv, After, Grows;
    if calls == [] {
      GrowsNothing(db);
    } else {
      var next := After(db, hasher, calls[0]);
      CallKeeps(db, hasher, calls[0]);
      CallGrows(db, hasher, calls[0]);
      RunGrows(next, hasher, calls[1..]);
      GrowsComposes(db, next, Run(next, hasher, calls[1..]));
    }
  }

  lemma GrowsNothing(db: Db)
    ensures Grows(db, db)
  {
  }

  // ------------------------------------------------------------ what a call changes

  /** Only publishing, and registering the first version of a context, say which version a context resolves
      to: the one just stored. Every other call, refused or not, leaves all pointers where they are. */
  lemma PointersMove(db: Db, hasher: Text -> Text, call: Call)
    ensures var first := call.Register? && forall k :: k in db.rows ==>
                           k.namespace != call.record.key.namespace || k.context != call.record.key.context;
            After(db, hasher, call).current
            == if Result(db, hasher, call) == Accepted && (call.Publish? || first)
               then db.current[(call.record.key.namespace, call.record.key.context) := call.record.key.version]
               else db.current
  {
    hide InsertOutcome, Owned;
  }

  /** An accepted record can be read back whole, and no other version changes. */
  lemma StoresTheRecord(db: Db, hasher: Text -> Text, call: Call)
    requires !call.Deprecate? && Result(db, hasher, call) == Accepted
    ensures var db', r := After(db, hasher, call), call.record;
            && db'.rows == db.rows[r.key := r.row] && db'.bindings == db.bindings[r.key := r.aliases]
            && (forall a :: a in r.aliases ==> (r.key.namespace, a) in db'.owner)
            && (forall o :: o in db'.owner ==> o in db.owner || (o.0 == r.key.namespace && o.1 in r.aliases))
  {
    hide InsertOutcome;
  }

  /** The checks refuse a new version exactly when storing it would break what the registry keeps. */
  lemma RefusesOnlyHarm(db: Db, hasher: Text -> Text, r: Record)
    requires Inv(db, hasher)
    ensures var db' := PointedAt(Inserted(db, r), r.key);
            InsertOutcome(db, hasher, r)
            == if hasher(r.row.text) != r.row.hash then HashMismatch
               else if r.key in db.rows then VersionImmutable
               else if !Inv(db', hasher) || !Grows(db, db') then Conflict
               else Accepted
  {
    hide NotAbove, HashTaken, AliasTaken, Owned, Inv, Grows;
    if InsertOutcome(db, hasher, r) == Accepted {
      InsertKeeps(db, hasher, r);
      InsertGrows(db, hasher, r);
    } else if InsertOutcome(db, hasher, r) == Conflict {
      ConflictIsHarm(db, hasher, r);
    }
  }

  lemma ConflictIsHarm(db: Db, hasher: Text -> Text, r: Record)
    requires r.key !in db.rows
    requires NotAbove(db, r.key) || (Live(r.row) && HashTaken(db, r.key.namespace, r.row.hash)) || AliasTaken(db, r)
    ensures var db' := PointedAt(Inserted(db, r), r.key);
            !Inv(db', hasher) || !Grows(db, db')
  {
    hide HashesMatch, PointersHold, RowsStay, PointersRise, OwnersStay;
    var db' := PointedAt(Inserted(db, r), r.key);
    if NotAbove(db, r.key) {
      var k :| k in db.rows && SameContext(k, r.key) && r.key.version <= k.version;
      assert !VersionsRise(db, db');
    } else if AliasTaken(db, r) {
      var a :| a in r.aliases && (r.key.namespace, a) in db.owner && db.owner[(r.key.namespace, a)] != r.key.context;
      assert !AliasesOwned(db');
    } else {
      var k :| k in db.rows && k.namespace == r.key.namespace && db.rows[k].hash == r.row.hash && Live(db.rows[k]);
      assert !HashesUnique(db');
    }
  }

  /** Retiring a version changes its date of deprecation and nothing else, needs the version to be there, live
      and not younger than that date, and no lookup answers with it again, whatever calls follow. */
  lemma RetiredForGood(db: Db, hasher: Text -> Text, key: Key, at: int, calls: seq<Call>, name: Text, namespace: Text)
    requires Inv(db, hasher)
    ensures var result, db' := Result(db, hasher, Deprecate(key, at)), After(db, hasher, Deprecate(key, at));
            && (result == NotFound <==> key !in db.rows)
            && (result == Accepted <==> key in db.rows && db.rows[key].deprecated == None && db.rows[key].created <= at)
            && (result == NotFound || result == Accepted || result == Conflict)
            && (result == Accepted ==>
                 && db' == db.(rows := db.rows[key := db.rows[key].(deprecated := Some(at))])
                 && !HasHash(Run(db', hasher, calls), name, namespace, key)
                 && !HasAlias(Run(db', hasher, calls), name, namespace, key))
  {
    hide Inv, Run;
    var db' := After(db, hasher, Deprecate(key, at));
    CallKeeps(db, hasher, Deprecate(key, at));
    RunGrows(db', hasher, calls);
  }

  // ------------------------------------------------------------ lookups

  ghost predicate HasHash(db: Db, hash: Text, namespace: Text, k: Key)
  {
    k in db.rows && k.namespace == namespace && db.rows[k].hash == hash && Live(db.rows[k])
  }

  /** The join of resolve_alias. */
  ghost predicate HasAlias(db: Db, alias: Text, namespace: Text, k: Key)
  {
    && k in db.bindings && k.namespace == namespace && alias in db.bindings[k]
    && (namespace, k.context) in db.current && db.current[(namespace, k.context)] == k.version
    && k in db.rows && Live(db.rows[k])
  }

  lemma HashLookupUnambiguous(db: Db, hasher: Text -> Text, hash: Text, namespace: Text, k: Key, l: Key)
    requires Inv(db, hasher) && HasHash(db, hash, namespace, k) && HasHash(db, hash, namespace, l)
    ensures k == l
  {
    hide AliasesOwned, PointersHold, HashesMatch;
  }

  lemma AliasLookupUnambiguous(db: Db, hasher: Text -> Text, alias: Text, namespace: Text, k: Key, l: Key)
    requires Inv(db, hasher) && HasAlias(db, alias, namespace, k) && HasAlias(db, alias, namespace, l)
    ensures k == l
  {
    hide HashesUnique, PointersHold, HashesMatch;
    assert k.context == l.context;
  }

  /** After any calls, accepted or rejected, no lookup by hash or alias has two answers. */
  lemma LookupsStayUnambiguous(hasher: Text -> Text, calls: seq<Call>, name: Text, namespace: Text, k: Key, l: Key)
    requires var db := Run(EMPTY, hasher, calls);
             || (HasHash(db, name, namespace, k) && HasHash(db, name, namespace, l))
             || (HasAlias(db, name, namespace, k) && HasAlias(db, name, namespace, l))
    ensures k == l
  {
    hide Run, HasHash, HasAlias;
    RunKeeps(EMPTY, hasher, calls);
    var db := Run(EMPTY, hasher, calls);
    if HasHash(db, name, namespace, k) && HasHash(db, name, namespace, l) {
      HashLookupUnambiguous(db, hasher, name, namespace, k, l);
    } else {
      AliasLookupUnambiguous(db, hasher, name, namespace, k, l);
    }
  }

  // ------------------------------------------------------------ the registry

  lemma OwnedNone(owner: map<(Text, Text), Text>, namespace: Text, context: Text)
    ensures Owned(owner, namespace, [], context) == owner
  {
  }

  lemma OwnedStep(owner: map<(Text, Text), Text>, namespace: Text, aliases: seq<Text>, a: Text, context: Text)
    ensures var was := Owned(owner, namespace, aliases, context);
            Owned(owner, namespace, aliases + [a], context)
            == if (namespace, a) in was then was else was[(namespace, a) := context]
  {
    assert (set x | x in aliases + [a] :: (namespace, x)) == (set x | x in aliases :: (namespace, x)) + {(namespace, a)};
  }

  class Store {
    const hasher: Text -> Text
    var rows: map<Key, Row>
    var bindings: map<Key, seq<Text>>
    var owner: map<(Text, Text), Text>
    var current: map<(Text, Text), int>

    ghost function View(): Db
      reads this
    {
      Db(rows, bindings, owner, current)
    }

    constructor (hasher: Text -> Text)
      ensures View() == EMPTY && this.hasher == hasher
    {
      this.hasher := hasher;
      rows, bindings, owner, current := map[], map[], map[], map[];
    }

    /** SELECT MAX(version) of one context. */
    method Highest(key: Key) returns (highest: Option<int>)
      ensures highest.None? <==> !HasContext(View(), key)
      ensures highest.Some? ==>
                && Key(key.namespace, key.context, highest.value) in rows
                && forall k :: k in rows && SameContext(k, key) ==> k.version <= highest.value
    {
      highest := None;
      var todo := rows.Keys;
      while todo != {}
        invariant todo <= rows.Keys
        invariant forall k :: k in rows && k !in todo && SameContext(k, key) ==> highest.Some? && k.version <= highest.value
        invariant highest.Some? ==> Key(key.namespace, key.context, highest.value) in rows
        decreases todo
      {
        var k :| k in todo;
        todo := todo - {k};
        if SameContext(k, key) && (highest.None? || highest.value < k.version) {
          highest := Some(k.version);
          assert k == Key(key.namespace, key.context, k.version);
        }
      }
      if highest.Some? {
        assert SameContext(Key(key.namespace, key.context, highest.value), key);
      }
    }

    /** The alias checks of _insert, in the order of the record's aliases. */
    method AliasConflict(r: Record) returns (taken: bool)
      ensures taken <==> AliasTaken(View(), r)
    {
      for i := 0 to |r.aliases|
        invariant forall j :: 0 <= j < i ==>
                    !((r.key.namespace, r.aliases[j]) in owner && owner[(r.key.namespace, r.aliases[j])] != r.key.context)
      {
        var a := (r.key.namespace, r.aliases[i]);
        if a in owner && owner[a] != r.key.context {
          assert r.aliases[i] in r.aliases;
          return true;
        }
      }
      return false;
    }

    /** INSERT OR IGNORE of each alias. */
    method ClaimAliases(r: Record)
      modifies this`owner
      ensures owner == Owned(old(owner), r.key.namespace, r.aliases, r.key.context)
    {
      hide Owned;
      OwnedNone(owner, r.key.namespace, r.key.context);
      for i := 0 to |r.aliases|
        invariant owner == Owned(old(owner), r.key.namespace, r.aliases[..i], r.key.context)
      {
        var a := (r.key.namespace, r.aliases[i]);
        assert r.aliases[..i + 1] == r.aliases[..i] + [r.aliases[i]];
        OwnedStep(old(owner), r.key.namespace, r.aliases[..i], r.aliases[i], r.key.context);
        if a !in owner {
          owner := owner[a := r.key.context];
        }
      }
      assert r.aliases[..|r.aliases|] == r.aliases;
    }

    method Insert(r: Record) returns (outcome: Outcome)
      modifies this`rows, this`bindings, this`owner
      ensures outcome == InsertOutcome(old(View()), hasher, r)
      ensures View() == if outcome == Accepted then Inserted(old(View()), r) else old(View())
    {
      hide Owned, AliasTaken;
      if hasher(r.row.text) != r.row.hash {
        return HashMismatch;
      }
      if r.key in rows {
        return VersionImmutable;
      }
      var highest := Highest(r.key);
      if highest.Some? && r.key.version <= highest.value {
        assert SameContext(Key(r.key.namespace, r.key.context, highest.value), r.key);
        return Conflict;
      }
      assert !NotAbove(View(), r.key);
      if Live(r.row) && exists k :: k in rows && k.namespace == r.key.namespace && rows[k].hash == r.row.hash && Live(rows[k]) {
        return Conflict;
      }
      var taken := AliasConflict(r);
      if taken {
        return Conflict;
      }
      rows := rows[r.key := r.row];
      bindings := bindings[r.key := r.aliases];
      ClaimAliases(r);
      return Accepted;
    }

    method Register(r: Record) returns (outcome: Outcome)
      modifies this
      ensures outcome == Result(old(View()), hasher, Call.Register(r))
      ensures View() == After(old(View()), hasher, Call.Register(r))
      ensures current == if outcome == Accepted && forall k :: k in old(rows) ==> !SameContext(k, r.key)
                         then old(current)[(r.key.namespace, r.key.context) := r.key.version]
                         else old(current)
    {
      hide InsertOutcome, Inserted;
      var highest := Highest(r.key);
      outcome := Insert(r);
      if outcome == Accepted && highest.None? {
        current := current[(r.key.namespace, r.key.context) := r.key.version];
      }
    }

    /** Publishes and reads back what the tables now hold. */
    method PublishVersion(r: Record) returns (outcome: Outcome, stored: Option<Record>)
      modifies this
      ensures outcome == Result(old(View()), hasher, Publish(r))
      ensures View() == After(old(View()), hasher, Publish(r))
      ensures stored == if outcome == Accepted then Some(r) else None
      ensures current == if outcome == Accepted then old(current)[(r.key.namespace, r.key.context) := r.key.version]
                         else old(current)
    {
      hide InsertOutcome, Owned;
      stored := None;
      outcome := Insert(r);
      if outcome == Accepted {
        current := current[(r.key.namespace, r.key.context) := r.key.version];
        stored := Some(Record(r.key, rows[r.key], bindings[r.key]));
      }
    }

    method Deprecate(key: Key, at: int) returns (outcome: Outcome)
      modifies this
      ensures outcome == Result(old(View()), hasher, Call.Deprecate(key, at))
      ensures View() == After(old(View()), hasher, Call.Deprecate(key, at))
      ensures current == old(current) && rows.Keys == old(rows).Keys
    {
      if key !in rows {
        return NotFound;
      }
      if rows[key].deprecated.Some? || at < rows[key].created {
        return Conflict;
      }
      rows := rows[key := rows[key].(deprecated := Some(at))];
      return Accepted;
    }

    /** Finds the live record with this hash if there is one; nothing else can be the answer. */
    method ByContentHash(hash: Text, namespace: Text) returns (found: Option<Key>)
      requires Inv(View(), hasher)
      ensures found.None? <==> !exists k :: HasHash(View(), hash, namespace, k)
      ensures found.Some? ==> forall k :: HasHash(View(), hash, namespace, k) <==> k == found.value
    {
      hide Inv;
      if exists k :: k in rows && k.namespace == namespace && rows[k].hash == hash && Live(rows[k]) {
        var k :| k in rows && k.namespace == namespace && rows[k].hash == hash && Live(rows[k]);
        found := Some(k);
        assert HasHash(View(), hash, namespace, k);
        forall l | HasHash(View(), hash, namespace, l)
          ensures l == k
        {
          HashLookupUnambiguous(View(), hasher, hash, namespace, k, l);
        }
      } else {
        found := None;
      }
    }

    /** Resolves an alias through the current version of the one context it names. */
    method ResolveAlias(alias: Text, namespace: Text) returns (found: Option<Key>)
      requires Inv(View(), hasher)
      ensures found.None? <==> !exists k :: HasAlias(View(), alias, namespace, k)
      ensures found.Some? ==> forall k :: HasAlias(View(), alias, namespace, k) <==> k == found.value
    {
      hide Inv;
      found := None;
      assert forall k :: HasAlias(View(), alias, namespace, k) <==> Joined(k, alias, namespace);
      if exists k :: k in bindings && Joined(k, alias, namespace) {
        var k :| k in bindings && Joined(k, alias, namespace);
        found := Some(k);
        assert HasAlias(View(), alias, namespace, k);
        forall l | HasAlias(View(), alias, namespace, l)
          ensures l == k
        {
          AliasLookupUnambiguous(View(), hasher, alias, namespace, k, l);
        }
      }
    }

    predicate Joined(k: Key, alias: Text, namespace: Text)
      reads this
    {
      && k in bindings && k.namespace == namespace && alias in bindings[k]
      && (namespace, k.context) in current && current[(namespace, k.context)] == k.version
      && k in rows && Live(rows[k])
    }
  }
}
