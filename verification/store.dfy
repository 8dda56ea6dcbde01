/** The storage semantics of the triptych graph store, on values.

    The store keeps two SQLite tables on one connection:
    - `node (id INTEGER PRIMARY KEY AUTOINCREMENT, data BLOB)`, created by the
      first `Node::create`;
    - `triple (id INTEGER PRIMARY KEY AUTOINCREMENT, subject_id, predicate_id,
      object_id)` with a foreign key from each of the three columns into
      `node(id)` and a UNIQUE constraint over the three together, created by
      the first `Triple::create`.
    Both share the connection's last-insert-rowid, which records the most
    recent successful insert and which a failed insert leaves alone.

    `Db` is the whole connection state as a value; the class in module Conn
    is specified by the functions below. */
module Store {

  /** Ids cross the Rust interface as `u32` (`last_insert_rowid() as u32`). */
  const U32_LIMIT: int := 0x1_0000_0000
  type U32 = x: int | 0 <= x < U32_LIMIT

  /** The node's JSON value as stored in the `data` column; its contents are opaque here. */
  type Payload = string

  datatype Option<T> = None | Some(value: T)

  /** `struct Node`: `id` is `None` only before the node is stored. */
  datatype Node = Node(id: Option<U32>, data: Payload)

  /** `struct Triple`. */
  datatype Triple = Triple(id: Option<U32>, subjectId: U32, predicateId: U32, objectId: U32)

  /** One row of the `triple` table, without its id. */
  datatype TripleRow = TripleRow(subjectId: U32, predicateId: U32, objectId: U32)

  /** The connection state.
      - `foreignKeys`: whether `PRAGMA foreign_keys` is on;
      - `nodeTable`, `tripleTable`: whether each table exists yet;
      - `nodes`, `triples`: the rows, keyed by rowid;
      - `tripleIndex`: the index SQLite keeps for the UNIQUE constraint,
        from each stored (subject_id, predicate_id, object_id) to its rowid;
      - `nodeSeq`, `tripleSeq`: each table's AUTOINCREMENT counter (its
        `sqlite_sequence` entry, 0 before the first insert);
      - `lastInsertRowid`: the connection's last-insert-rowid, 0 before any insert. */
  datatype Db = Db(
    foreignKeys: bool,
    nodeTable: bool,
    nodes: map<int, Payload>,
    nodeSeq: nat,
    tripleTable: bool,
    triples: map<int, TripleRow>,
    tripleIndex: map<TripleRow, int>,
    tripleSeq: nat,
    lastInsertRowid: int)

  /** A freshly opened connection: no tables yet, foreign keys switched on. */
  function Fresh(): (db: Db)
    ensures db.foreignKeys && !db.nodeTable && !db.tripleTable && db.lastInsertRowid == 0
    ensures Valid(db)
  {
    Db(true, false, map[], 0, false, map[], map[], 0, 0)
  }

  /** No two triple rows hold the same (subject_id, predicate_id, object_id). */
  ghost predicate UniqueTriples(triples: map<int, TripleRow>)
  {
    forall i, j :: i in triples && j in triples && triples[i] == triples[j] ==> i == j
  }

  /** `index` maps each tuple of `triples` back to the one rowid that holds it. */
  ghost predicate IndexMatches(triples: map<int, TripleRow>, index: map<TripleRow, int>)
  {
    (forall i :: i in triples ==> triples[i] in index && index[triples[i]] == i) &&
    (forall t :: t in index ==> index[t] in triples && triples[index[t]] == t)
  }

  /** Every id a triple row refers to is the id of a node row. */
  ghost predicate ReferencesNodes(triples: map<int, TripleRow>, nodes: map<int, Payload>)
  {
    forall i :: i in triples ==>
      triples[i].subjectId in nodes && triples[i].predicateId in nodes && triples[i].objectId in nodes
  }

  /** The invariant of every reachable connection state. */
  ghost predicate Valid(db: Db)
  {
    // a table that does not exist has no rows and an unused counter
    (!db.nodeTable ==> db.nodes == map[] && db.nodeSeq == 0) &&
    (!db.tripleTable ==> db.triples == map[] && db.tripleIndex == map[] && db.tripleSeq == 0) &&
    // ids stay within what `as u32` passes through unchanged
    db.nodeSeq < U32_LIMIT && db.tripleSeq < U32_LIMIT && 0 <= db.lastInsertRowid < U32_LIMIT &&
    // with no deletes, AUTOINCREMENT has handed out exactly 1..seq
    (forall id :: id in db.nodes <==> 1 <= id <= db.nodeSeq) &&
    (forall id :: id in db.triples <==> 1 <= id <= db.tripleSeq) &&
    // CONSTRAINT only_unique_triples, kept through its index
    IndexMatches(db.triples, db.tripleIndex) &&
    // FOREIGN KEY(...) REFERENCES node(id), enforced when the pragma is on
    (db.foreignKeys ==> ReferencesNodes(db.triples, db.nodes)) &&
    // the last-insert-rowid is 0 or names a row of one of the tables
    (db.lastInsertRowid == 0 || db.lastInsertRowid in db.nodes || db.lastInsertRowid in db.triples)
  }

  /** `Node::create`: create the node table if missing, insert one row, and
      return the connection's last-insert-rowid as the node's id. The insert
      has no constraint to violate, so it always happens. */
  function CreateNode(db: Db, data: Payload): (r: (Db, Node))
    requires db.nodeSeq + 1 < U32_LIMIT
    // the row gets the next AUTOINCREMENT value, which is also the returned id
    ensures r.0.nodeSeq == db.nodeSeq + 1 && r.1 == Node(Some(r.0.nodeSeq), data)
    ensures r.0.nodeTable && r.0.nodes == db.nodes[r.0.nodeSeq := data]
    ensures r.0.lastInsertRowid == r.0.nodeSeq
    // the triple table is left alone
    ensures r.0.triples == db.triples && r.0.tripleIndex == db.tripleIndex
    ensures r.0.tripleTable == db.tripleTable && r.0.tripleSeq == db.tripleSeq
    ensures r.0.foreignKeys == db.foreignKeys
  {
    var id := db.nodeSeq + 1;
    (db.(nodeTable := true, nodes := db.nodes[id := data], nodeSeq := id, lastInsertRowid := id),
     Node(Some(id), data))
  }

  /** On a valid store `Node::create` keeps the invariant; the new id is
      fresh, one past the largest node id (1 on an empty table), and exactly
      one row is added. */
  lemma CreateNodeKeepsValid(db: Db, data: Payload)
    requires Valid(db) && db.nodeSeq + 1 < U32_LIMIT
    ensures var r := CreateNode(db, data); var id := r.1.id.value;
      Valid(r.0) && id !in db.nodes && (forall k :: k in db.nodes ==> k < id) &&
      (if db.nodes == map[] then id == 1 else id - 1 in db.nodes) &&
      |r.0.nodes| == |db.nodes| + 1
  {
    assert db.nodeSeq != 0 ==> db.nodeSeq in db.nodes;
  }

  /** `Node::get` on an id whose row exists (otherwise the source panics). */
  function GetNode(db: Db, id: U32): Option<Node>
    requires db.nodeTable && id in db.nodes
  {
    Some(Node(Some(id), db.nodes[id]))
  }

  /** The constraints of the triple table, stated on its rows: the tuple is
      not stored yet, and, with foreign keys on, all three ids are node ids. */
  ghost predicate Admits(db: Db, row: TripleRow)
  {
    (forall i :: i in db.triples ==> db.triples[i] != row) &&
    (db.foreignKeys ==> row.subjectId in db.nodes && row.predicateId in db.nodes && row.objectId in db.nodes)
  }

  /** The check SQLite performs on `INSERT INTO triple`: a lookup in the
      UNIQUE index, then the foreign keys when they are enforced. */
  predicate Accepts(db: Db, row: TripleRow)
  {
    row !in db.tripleIndex &&
    (db.foreignKeys ==> row.subjectId in db.nodes && row.predicateId in db.nodes && row.objectId in db.nodes)
  }

  /** `Triple::create`: create the triple table if missing, try the insert,
      ignore its outcome, and return the given ids with the connection's
      last-insert-rowid as the triple's id. */
  function CreateTriple(db: Db, subjectId: U32, predicateId: U32, objectId: U32): (r: (Db, Triple))
    requires db.tripleSeq + 1 < U32_LIMIT && 0 <= db.lastInsertRowid < U32_LIMIT
    // the returned triple always carries the given ids and the last-insert-rowid
    ensures r.1.id == Some(r.0.lastInsertRowid)
    ensures r.1.subjectId == subjectId && r.1.predicateId == predicateId && r.1.objectId == objectId
    // the node table is left alone; the triple table exists afterwards
    ensures r.0.nodes == db.nodes && r.0.nodeTable == db.nodeTable && r.0.nodeSeq == db.nodeSeq
    ensures r.0.tripleTable && r.0.foreignKeys == db.foreignKeys
    // an accepted insert stores the row under the next AUTOINCREMENT value
    ensures Accepts(db, TripleRow(subjectId, predicateId, objectId)) ==>
      r.0.tripleSeq == db.tripleSeq + 1 && r.0.lastInsertRowid == r.0.tripleSeq &&
      r.0.triples == db.triples[r.0.tripleSeq := TripleRow(subjectId, predicateId, objectId)] &&
      r.0.tripleIndex == db.tripleIndex[TripleRow(subjectId, predicateId, objectId) := r.0.tripleSeq]
    // a rejected insert changes nothing else, so the id is the previous one
    ensures !Accepts(db, TripleRow(subjectId, predicateId, objectId)) ==>
      r.0 == db.(tripleTable := true) && r.1.id == Some(db.lastInsertRowid)
  {
    var db0 := db.(tripleTable := true);
    var row := TripleRow(subjectId, predicateId, objectId);
    var db' :=
      if Accepts(db0, row) then
        var id := db0.tripleSeq + 1;
        db0.(triples := db0.triples[id := row], tripleIndex := db0.tripleIndex[row := id],
             tripleSeq := id, lastInsertRowid := id)
      else
        db0;
    (db', Triple(Some(db'.lastInsertRowid), subjectId, predicateId, objectId))
  }

  /** On a valid store, SQLite's index check accepts exactly the tuples the
      constraints admit; `Triple::create` keeps the invariant (unique tuples,
      references to existing nodes); and an admitted tuple gets a fresh id one
      past the largest triple id (1 on an empty table). */
  lemma CreateTripleKeepsValid(db: Db, subjectId: U32, predicateId: U32, objectId: U32)
    requires Valid(db) && db.tripleSeq + 1 < U32_LIMIT
    ensures Accepts(db, TripleRow(subjectId, predicateId, objectId)) <==>
      Admits(db, TripleRow(subjectId, predicateId, objectId))
    ensures Valid(CreateTriple(db, subjectId, predicateId, objectId).0)
    ensures Admits(db, TripleRow(subjectId, predicateId, objectId)) ==>
      var id := CreateTriple(db, subjectId, predicateId, objectId).1.id.value;
      id !in db.triples && (forall k :: k in db.triples ==> k < id) &&
      (if db.triples == map[] then id == 1 else id - 1 in db.triples)
  {
    var row := TripleRow(subjectId, predicateId, objectId);
    if row in db.tripleIndex {
      var k := db.tripleIndex[row];
      assert k in db.triples && db.triples[k] == row;
      assert !Admits(db, row);
    } else {
      forall i | i in db.triples ensures db.triples[i] != row {
        assert db.triples[i] in db.tripleIndex;
      }
    }
    assert db.tripleSeq != 0 ==> db.tripleSeq in db.triples;
    var r := CreateTriple(db, subjectId, predicateId, objectId).0;
    if Accepts(db, row) {
      var id := db.tripleSeq + 1;
      assert IndexMatches(r.triples, r.tripleIndex) by {
        forall i | i in r.triples
          ensures r.triples[i] in r.tripleIndex && r.tripleIndex[r.triples[i]] == i
        {
          if i != id {
            assert db.triples[i] != row;
          }
        }
      }
    }
  }

  /** `Triple::get` on an id whose row exists (otherwise the source panics). */
  function GetTriple(db: Db, id: U32): Option<Triple>
    requires db.tripleTable && id in db.triples
  {
    var row := db.triples[id];
    Some(Triple(Some(id), row.subjectId, row.predicateId, row.objectId))
  }

  /** The index makes the UNIQUE constraint hold of the rows themselves. */
  lemma ValidTriplesUnique(db: Db)
    requires Valid(db)
    ensures UniqueTriples(db.triples)
  {
  }
}
