# triptych graph store, modelled in Dafny

triptych keeps a graph of nodes and triples (subject → predicate → object,
the predicate itself a node) in SQLite through one rusqlite `Connection`.
This project models the storage semantics of that connection:

- the `node` table (`id INTEGER PRIMARY KEY AUTOINCREMENT`, `data BLOB`), created
  lazily by `Node::create`;
- the `triple` table (AUTOINCREMENT id, three NOT NULL node references with a
  FOREIGN KEY each into `node(id)`, and `UNIQUE (subject_id, predicate_id,
  object_id)`), created lazily by `Triple::create`;
- `PRAGMA foreign_keys = 1`, switched on by `build_database`;
- the connection's last-insert-rowid, shared by both tables. It changes only on a
  successful insert.

Files:

- `store.dfy`, module `Store`. The connection state as a value (`Db`). It holds a
  map from rowid to row per table, each table's AUTOINCREMENT counter, whether
  each table exists, the foreign-key flag and the last-insert-rowid. `Valid` is
  the invariant of every reachable state:
  - ids are exactly 1..counter;
  - the index of the UNIQUE constraint (`tripleIndex`) maps exactly the stored
    tuples back to their rowids, so triple tuples are unique;
  - with foreign keys on, every reference names a node;
  - the last-insert-rowid is 0 or names a row.

  `CreateNode`, `GetNode`, `CreateTriple` and `GetTriple` specify the four
  operations. `CreateTriple` decides the insert as SQLite does, by a lookup in
  the UNIQUE index and the foreign-key check (`Accepts`). `CreateTripleKeepsValid`
  proves that this is exactly the constraint stated on the rows (`Admits`).
  `CreateNodeKeepsValid` and `CreateTripleKeepsValid` prove that each operation keeps `Valid`.
- `properties.dfy`, module `Properties`. Lemmas that relate several calls:
  sequential ids, round trips, rejected inserts, the stale id, and `Run`. `Run`
  is any sequence of calls, and it keeps `Valid` and every existing row.
- `connection.dfy`, module `Conn`. The class `Connection`. Its fields are the
  tables, counters and last-insert-rowid, and its methods update them step by
  step. Each method is proved equal to its `Store` function. `TripleMake` replays
  the repository's `triple_make` test against the class.

The model follows the code, including where a reader of a triple store might
expect otherwise:

- `Node::create` has no uniqueness check on `data` (src/lib.rs:19-26), so
  creating equal data twice gives two rows (`EqualDataTwoNodes`).
- `Node::get` and `Triple::get` on a missing id do not return `None`. `rows.next()`
  yields nothing and the `.unwrap()` panics. So both gets *require* that the
  table exists and the row is present. The `Err(_) => None` arm covers only
  row-read errors, which are storage failures and are not modelled.
- `Triple::create` reports no error: the insert's result is discarded
  (src/lib.rs:76-78), and the returned triple always carries the given ids and
  the connection's current last-insert-rowid. After a rejected insert, that is the
  id of the previous successful insert, which may be a node's
  (`StaleIdAfterNodeCreate`, `TripleMakeScenario`).
- A rejected triple insert still leaves the triple table created, because
  `CREATE TABLE IF NOT EXISTS` is a separate statement. It does not advance the
  AUTOINCREMENT counter, because SQLite rolls back the failed statement.

## Model

| member | source | states |
|---|---|---|
| Store.Fresh | src/lib.rs:143-155 | a new connection has foreign keys on, no tables and last-insert-rowid 0, and satisfies the store invariant |
| Store.Valid | src/lib.rs:19-22 | the invariant of every reachable state, from the DDL at src/lib.rs:19-22 and 65-74 and the pragma at src/lib.rs:149: a missing table has no rows; ids are exactly 1..counter and fit in `u32`; the UNIQUE index maps exactly the stored tuples to their rowids; with foreign keys on, every triple references nodes; the last-insert-rowid is 0 or names a row |
| Store.Admits | src/lib.rs:71-74 | the triple table's constraints stated on its rows: the tuple is not stored yet and, with foreign keys on, all three ids are node ids |
| Store.Accepts | src/lib.rs:71-78 | the check SQLite makes on `INSERT INTO triple`: a lookup in the UNIQUE index, then the foreign keys when the pragma is on (proved equivalent to `Admits` by `Store.CreateTripleKeepsValid`) |
| Store.GetNode | src/lib.rs:33-49 | requires the node table and the row to exist, since `rows.next().unwrap()` panics otherwise; returns the stored row as `Some(Node)` with its id (its properties are `Properties.NodeRoundTrip` and `Properties.FreshStoreNodeIds`) |
| Store.GetTriple | src/lib.rs:87-102 | requires the triple table and the row to exist, for the same reason; returns the stored row as `Some(Triple)` with its id (its property is `Properties.TripleRoundTrip`) |
| Store.CreateNode | src/lib.rs:18-32 | the node table exists afterwards; the row gets the next AUTOINCREMENT value, which is both the returned id and the new last-insert-rowid; exactly the row `id ↦ data` is added and no other row changes; the triple table and the pragma are unchanged |
| Store.CreateNodeKeepsValid | src/lib.rs:18-32 | on a valid store, creating a node keeps the invariant; the new id is fresh, exceeds every node id, and is 1 on an empty table or one past the largest id; the table grows by exactly one row |
| Store.CreateTriple | src/lib.rs:61-85 | the returned triple carries the given ids and the connection's last-insert-rowid, and the triple table exists afterwards; an insert that passes the UNIQUE index and the foreign-key check stores the tuple under the next AUTOINCREMENT value; a rejected one changes nothing else and returns the previous last-insert-rowid; the node table is unchanged either way |
| Store.CreateTripleKeepsValid | src/lib.rs:65-78 | on a valid store, the index check accepts exactly the tuples that are not stored yet and, with foreign keys on, reference existing nodes; the insert keeps the invariant (unique tuples, referential integrity); an accepted tuple gets a fresh id one past the largest triple id, or 1 on an empty table |
| Store.ValidTriplesUnique | src/lib.rs:74 | in a valid store, no two triple rows hold the same (subject_id, predicate_id, object_id) |
| Properties.CreateNodes | src/lib.rs:18-32 | successive `Node::create` calls get consecutive ids after the counter, each with its own data, and leave the triple table alone |
| Properties.CreateNodesKeepsRows | src/lib.rs:18-32 | successive `Node::create` calls leave every existing node row as it was |
| Properties.CreateNodesStores | src/lib.rs:18-32 | after successive `Node::create` calls, each call's data is stored under the id that call returned |
| Properties.FreshStoreNodeIds | src/lib.rs:110-118 | on a fresh connection the i-th created node has id i+1 and reads back as created |
| Properties.NodeRoundTrip | src/lib.rs:28-48 | `Node::get` on the id `Node::create` returned gives back the same node (id and data) |
| Properties.EqualDataTwoNodes | src/lib.rs:19-31 | creating equal data twice stores two rows under two distinct ids, each of which reads back |
| Properties.TripleRoundTrip | src/lib.rs:76-101 | an admitted triple gets id tripleSeq+1 and `Triple::get` returns it with identical id, subject, predicate and object |
| Properties.DanglingReferenceRejected | src/lib.rs:71-84 | with foreign keys on, a reference to a missing node inserts nothing, leaves the last-insert-rowid as it was, and returns that id |
| Properties.RepeatedTripleRejected | src/lib.rs:74-84 | creating a tuple immediately after creating it is rejected; the state does not change, and the same triple comes back |
| Properties.StoredTupleRejected | src/lib.rs:74-84 | creating a tuple that is already stored, at any later point, leaves the store unchanged and returns the connection's last-insert-rowid, not the stored row's id |
| Properties.StaleIdAfterNodeCreate | src/lib.rs:76-84 | a rejected triple insert right after `Node::create` returns the new node's id as the triple's id |
| Properties.TripleMakeScenario | src/lib.rs:120-140 | nodes 1, 2, 3 and triple (1, 3, 2) get ids 1, 2, 3 and 1, and it reads back; after node 4, repeating the triple reports id 4, which names no triple |
| Properties.Step | src/lib.rs:17-103 | one create call keeps the invariant, keeps every existing row, and advances each counter by at most one |
| Properties.Run | src/lib.rs:17-103 | any sequence of create calls keeps the invariant and never alters or removes an existing row |
| Properties.RunNeverReusesIds | src/lib.rs:21-67 | rows added during a run have larger ids than every row that was there before |
| Conn.Connection.BuildDatabase | src/lib.rs:143-155 | the new connection is the fresh state: foreign keys on, no tables |
| Conn.Connection.NodeCreate | src/lib.rs:18-32 | the new connection state and the returned node are those of `Store.CreateNode`, and the invariant is kept |
| Conn.Connection.NodeGet | src/lib.rs:33-49 | returns the stored row as `Some(Node)` with its id, for an existing id |
| Conn.Connection.TripleCreate | src/lib.rs:61-85 | the new connection state and the returned triple are those of `Store.CreateTriple`, and the invariant is kept |
| Conn.Connection.TripleGet | src/lib.rs:87-102 | returns the stored row as `Some(Triple)` with its id, for an existing id |
| Conn.TripleMake | src/lib.rs:120-140 | the `triple_make` test run against the class: after three nodes, the triple made from the ids of nodes 1, 3 and 2 as read back is (1, 3, 2) with id 1, and `Triple::get(1)` returns it with identical id and fields |

## Left out

- Opening the connection (file or in-memory) in `build_database` is I/O. Only its effect is modelled: foreign-key enforcement is on. The diagnostic print when the pragma fails is not modelled.
- The commented-out older `build_database` with a different schema is dead code.
- SQL text, statement preparation, named queries and row cursors are rusqlite/SQLite internals. They appear only through the table semantics above.
- The contents of the `serde_json::Value` payload are left out. Node data is an opaque string, and only its equality matters.
- Storage failures (unreachable database, disk errors, a failing `CREATE TABLE`) make the source panic or silently skip the insert. They are left out, so every insert that the constraints admit succeeds.
- Store.CreateNode: does not model the `i64 -> u32` truncation of `last_insert_rowid() as u32`. It requires the next id to stay below 2^32 instead.
- Store.CreateTriple: does not model the `i64 -> u32` truncation either. It requires the next triple id and the current last-insert-rowid to stay below 2^32.
- Conn.Connection.NodeGet: requires the row to exist, because the source panics on a missing id. The `Err(_) => None` arm for row-read errors is not modelled.
- Conn.Connection.TripleGet: requires the row to exist, for the same reason as `NodeGet`.
- SQLite's ceiling on AUTOINCREMENT (SQLITE_FULL at the largest 64-bit rowid) is unreachable below the 2^32 bound and is not modelled.
