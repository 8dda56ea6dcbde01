/** What the store promises across several calls: id assignment, round
    trips, rejected inserts, and the invariant kept over any run of calls. */
module Properties {
  import opened Store

  /** Successive `Node::create` calls on one connection. */
  function CreateNodes(db: Db, ds: seq<Payload>): (r: (Db, seq<Node>))
    requires db.nodeSeq + |ds| < U32_LIMIT
    decreases |ds|
    ensures r.0.nodeSeq == db.nodeSeq + |ds| && (ds != [] ==> r.0.nodeTable)
    // the k-th call gets the k-th id after the counter, with its own data
    ensures |r.1| == |ds|
    ensures forall i :: 0 <= i < |ds| ==> r.1[i] == Node(Some(db.nodeSeq + 1 + i), ds[i])
    // the triple table is untouched
    ensures r.0.triples == db.triples && r.0.tripleIndex == db.tripleIndex
    ensures r.0.tripleTable == db.tripleTable && r.0.tripleSeq == db.tripleSeq
    ensures r.0.foreignKeys == db.foreignKeys
  {
    if ds == [] then (db, [])
    else
      var first := CreateNode(db, ds[0]);
      var rest := CreateNodes(first.0, ds[1..]);
      assert forall i :: 1 <= i < |ds| ==> ds[i] == ds[1..][i - 1];
      (rest.0, [first.1] + rest.1)
  }

  /** Successive `Node::create` calls leave every node row at or below the
      counter as it was. */
  lemma {:induction false} CreateNodesKeepsRows(db: Db, ds: seq<Payload>, k: int)
    requires db.nodeSeq + |ds| < U32_LIMIT && k in db.nodes && k <= db.nodeSeq
    decreases |ds|
    ensures var r := CreateNodes(db, ds);
      k in r.0.nodes && r.0.nodes[k] == db.nodes[k]
  {
    if ds != [] {
      var db1 := CreateNode(db, ds[0]).0;
      CreateNodesKeepsRows(db1, ds[1..], k);
      assert CreateNodes(db, ds).0 == CreateNodes(db1, ds[1..]).0;
    }
  }

  /** After successive `Node::create` calls, the data of call `i` is stored
      under the id that call returned. */
  lemma {:induction false} CreateNodesStores(db: Db, ds: seq<Payload>, i: nat)
    requires db.nodeSeq + |ds| < U32_LIMIT && i < |ds|
    decreases |ds|
    ensures var r := CreateNodes(db, ds);
      db.nodeSeq + 1 + i in r.0.nodes && r.0.nodes[db.nodeSeq + 1 + i] == ds[i]
  {
    var db1 := CreateNode(db, ds[0]).0;
    assert CreateNodes(db, ds).0 == CreateNodes(db1, ds[1..]).0;
    if i == 0 {
      CreateNodesKeepsRows(db1, ds[1..], db.nodeSeq + 1);
    } else {
      CreateNodesStores(db1, ds[1..], i - 1);
    }
  }

  /** On a fresh connection the nodes get ids 1, 2, 3, ... in call order, and
      each reads back as created. */
  lemma FreshStoreNodeIds(ds: seq<Payload>)
    requires |ds| < U32_LIMIT
    ensures var r := CreateNodes(Fresh(), ds);
      forall i :: 0 <= i < |ds| ==>
        r.1[i].id == Some(i + 1) && i + 1 in r.0.nodes && GetNode(r.0, i + 1) == Some(r.1[i])
  {
    var r := CreateNodes(Fresh(), ds);
    forall i | 0 <= i < |ds|
      ensures r.1[i].id == Some(i + 1) && i + 1 in r.0.nodes && GetNode(r.0, i + 1) == Some(r.1[i])
    {
      CreateNodesStores(Fresh(), ds, i);
      assert r.1[i] == Node(Some(i + 1), ds[i]);
    }
  }

  /** `Node::get` returns exactly the node `Node::create` returned. */
  lemma NodeRoundTrip(db: Db, data: Payload)
    requires db.nodeSeq + 1 < U32_LIMIT
    ensures var r := CreateNode(db, data);
      r.1.id.value in r.0.nodes && GetNode(r.0, r.1.id.value) == Some(r.1)
  {
  }

  /** `data` is not unique: creating the same data twice stores two rows
      under two different ids, and both read back. */
  lemma EqualDataTwoNodes(db: Db, data: Payload)
    requires Valid(db) && db.nodeSeq + 2 < U32_LIMIT
    ensures var r1 := CreateNode(db, data);
      var r2 := CreateNode(r1.0, data);
      r1.1.id != r2.1.id && |r2.0.nodes| == |db.nodes| + 2 &&
      r1.1.id.value in r2.0.nodes && GetNode(r2.0, r1.1.id.value) == Some(r1.1) &&
      r2.1.id.value in r2.0.nodes && GetNode(r2.0, r2.1.id.value) == Some(r2.1)
  {
  }

  /** A triple the constraints admit reads back with identical fields, under
      the id one past the previous largest triple id. */
  lemma TripleRoundTrip(db: Db, s: U32, p: U32, o: U32)
    requires Valid(db) && db.tripleSeq + 1 < U32_LIMIT
    requires Admits(db, TripleRow(s, p, o))
    ensures var r := CreateTriple(db, s, p, o);
      r.1.id == Some(db.tripleSeq + 1) && r.1.id.value in r.0.triples &&
      GetTriple(r.0, r.1.id.value) == Some(r.1)
  {
    CreateTripleKeepsValid(db, s, p, o);
  }

  /** With foreign keys on, a reference to a missing node inserts nothing and
      the returned id is whatever was inserted last on the connection. */
  lemma DanglingReferenceRejected(db: Db, s: U32, p: U32, o: U32)
    requires db.tripleSeq + 1 < U32_LIMIT && 0 <= db.lastInsertRowid < U32_LIMIT
    requires db.foreignKeys && !(s in db.nodes && p in db.nodes && o in db.nodes)
    ensures var r := CreateTriple(db, s, p, o);
      r.0.triples == db.triples && r.0.nodes == db.nodes &&
      r.0.lastInsertRowid == db.lastInsertRowid && r.1.id == Some(db.lastInsertRowid)
  {
  }

  /** Creating the same tuple twice in a row: the second insert is rejected,
      nothing changes, and the stale id happens to be the first triple's own
      id, so the same triple comes back. */
  lemma RepeatedTripleRejected(db: Db, s: U32, p: U32, o: U32)
    requires Valid(db) && db.tripleSeq + 2 < U32_LIMIT
    requires Admits(db, TripleRow(s, p, o))
    ensures var r1 := CreateTriple(db, s, p, o);
      var r2 := CreateTriple(r1.0, s, p, o);
      r2 == r1
  {
  }

  /** A tuple that is already stored is rejected whenever it is created
      again: nothing changes, and the id returned is the connection's
      last-insert-rowid, whichever row that names. */
  lemma StoredTupleRejected(db: Db, k: int, s: U32, p: U32, o: U32)
    requires Valid(db) && db.tripleSeq + 1 < U32_LIMIT
    requires k in db.triples && db.triples[k] == TripleRow(s, p, o)
    ensures var r := CreateTriple(db, s, p, o);
      r.0 == db.(tripleTable := true) && r.1.id == Some(db.lastInsertRowid)
  {
    CreateTripleKeepsValid(db, s, p, o);
  }

  /** The stale id: when a node was created last, a rejected triple insert
      returns that node's id as the triple's id. */
  lemma StaleIdAfterNodeCreate(db: Db, data: Payload, k: int, s: U32, p: U32, o: U32)
    requires Valid(db) && db.nodeSeq + 1 < U32_LIMIT && db.tripleSeq + 1 < U32_LIMIT
    requires k in db.triples && db.triples[k] == TripleRow(s, p, o)
    ensures var r1 := CreateNode(db, data);
      var r2 := CreateTriple(r1.0, s, p, o);
      r2.0.triples == db.triples && r2.1.id == r1.1.id && r1.1.id.value in r2.0.nodes
  {
  }

  /** The `triple_make` scenario, continued: nodes 1, 2, 3; triple (1, 3, 2)
      gets id 1 and reads back; after a fourth node, repeating the triple
      reports id 4, which is no triple's id. */
  lemma TripleMakeScenario()
    ensures var r1 := CreateNodes(Fresh(), ["Boris the", "Brick Top", "Knows"]);
      var r2 := CreateTriple(r1.0, 1, 3, 2);
      var r3 := CreateNode(r2.0, "Lucky");
      var r4 := CreateTriple(r3.0, 1, 3, 2);
      r1.1[0].id == Some(1) && r1.1[1].id == Some(2) && r1.1[2].id == Some(3) &&
      r2.1 == Triple(Some(1), 1, 3, 2) && 1 in r2.0.triples && GetTriple(r2.0, 1) == Some(r2.1) &&
      r3.1.id == Some(4) && r4.1 == Triple(Some(4), 1, 3, 2) && 4 !in r4.0.triples
  {
    var ds := ["Boris the", "Brick Top", "Knows"];
    var r1 := CreateNodes(Fresh(), ds);
    CreateNodesStores(Fresh(), ds, 0);
    CreateNodesStores(Fresh(), ds, 1);
    CreateNodesStores(Fresh(), ds, 2);
    assert r1.0.triples == map[] && r1.0.tripleIndex == map[];
    var r2 := CreateTriple(r1.0, 1, 3, 2);
    assert r2.0.triples == map[1 := TripleRow(1, 3, 2)];
    assert TripleRow(1, 3, 2) in CreateNode(r2.0, "Lucky").0.tripleIndex;
  }

  /** A call on the store's public surface. */
  datatype Call =
    | CreateNodeCall(data: Payload)
    | CreateTripleCall(subjectId: U32, predicateId: U32, objectId: U32)

  /** `after` keeps every row of `before` unchanged, and no table disappears. */
  ghost predicate Extends(before: Db, after: Db)
  {
    after.foreignKeys == before.foreignKeys &&
    (before.nodeTable ==> after.nodeTable) && (before.tripleTable ==> after.tripleTable) &&
    before.nodeSeq <= after.nodeSeq && before.tripleSeq <= after.tripleSeq &&
    (forall k :: k in before.nodes ==> k in after.nodes && after.nodes[k] == before.nodes[k]) &&
    (forall k :: k in before.triples ==> k in after.triples && after.triples[k] == before.triples[k])
  }

  /** One call on a valid store, its result dropped. */
  function Step(db: Db, c: Call): (r: Db)
    requires Valid(db) && db.nodeSeq + 1 < U32_LIMIT && db.tripleSeq + 1 < U32_LIMIT
    ensures Valid(r) && Extends(db, r)
    ensures r.nodeSeq <= db.nodeSeq + 1 && r.tripleSeq <= db.tripleSeq + 1
  {
    match c
    case CreateNodeCall(data) =>
      CreateNodeKeepsValid(db, data);
      CreateNode(db, data).0
    case CreateTripleCall(s, p, o) =>
      CreateTripleKeepsValid(db, s, p, o);
      CreateTriple(db, s, p, o).0
  }

  /** Any run of calls on one connection keeps the table invariants (unique
      tuples, referential integrity, ids 1..counter, a last-insert-rowid
      that names a row) and never alters or removes a row that existed. */
  function Run(db: Db, calls: seq<Call>): (r: Db)
    requires Valid(db) && db.nodeSeq + |calls| < U32_LIMIT && db.tripleSeq + |calls| < U32_LIMIT
    decreases |calls|
    ensures Valid(r) && Extends(db, r)
    ensures r.nodeSeq <= db.nodeSeq + |calls| && r.tripleSeq <= db.tripleSeq + |calls|
  {
    if calls == [] then db else Run(Step(db, calls[0]), calls[1..])
  }

  /** Ids only grow: a row added during a run has a larger id than every row
      that was there before it. */
  lemma RunNeverReusesIds(db: Db, calls: seq<Call>)
    requires Valid(db) && db.nodeSeq + |calls| < U32_LIMIT && db.tripleSeq + |calls| < U32_LIMIT
    ensures var r := Run(db, calls);
      (forall k, j :: k in db.nodes && j in r.nodes && j !in db.nodes ==> k < j) &&
      (forall k, j :: k in db.triples && j in r.triples && j !in db.triples ==> k < j)
  {
  }
}
