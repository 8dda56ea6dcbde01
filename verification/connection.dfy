/** The rusqlite `Connection` as the source uses it: one object whose
    tables, AUTOINCREMENT counters and last-insert-rowid the four operations
    update in place. Each method is specified by its function in Store. */
module Conn {
  import opened Store

  class Connection {
    var foreignKeys: bool
    var nodeTableExists: bool
    var nodes: map<int, Payload>
    var nodeSeq: nat
    var tripleTableExists: bool
    var triples: map<int, TripleRow>
    var tripleIndex: map<TripleRow, int>
    var tripleSeq: nat
    var lastInsertRowid: int

    /** The connection state as a value. */
    ghost function State(): Db
      reads this
    {
      Db(foreignKeys, nodeTableExists, nodes, nodeSeq, tripleTableExists, triples, tripleIndex, tripleSeq, lastInsertRowid)
    }

    ghost predicate Valid()
      reads this
    {
      Store.Valid(State())
    }

    /** `build_database`: a new connection with `PRAGMA foreign_keys = 1` in
        effect and no tables yet. */
    constructor BuildDatabase()
      ensures Valid() && State() == Fresh()
    {
      foreignKeys := true;
      nodeTableExists, nodes, nodeSeq := false, map[], 0;
      tripleTableExists, triples, tripleIndex, tripleSeq := false, map[], map[], 0;
      lastInsertRowid := 0;
    }

    /** `Node::create`. */
    method NodeCreate(data: Payload) returns (node: Node)
      requires Valid() && nodeSeq + 1 < U32_LIMIT
      modifies this
      ensures Valid()
      ensures (State(), node) == CreateNode(old(State()), data)
    {
      ghost var before := State();
      assert Store.Valid(CreateNode(before, data).0) by {
        CreateNodeKeepsValid(before, data);
      }
      // CREATE TABLE IF NOT EXISTS node: afterwards the table exists either way
      nodeTableExists := true;
      // INSERT INTO node: AUTOINCREMENT takes the next sequence value
      var rowid := nodeSeq + 1;
      nodes := nodes[rowid := data];
      nodeSeq := rowid;
      lastInsertRowid := rowid;
      node := Node(Some(lastInsertRowid), data);
      assert State() == CreateNode(before, data).0;
    }

    /** `Node::get`, on a row that exists. */
    method NodeGet(id: U32) returns (r: Option<Node>)
      requires Valid() && nodeTableExists && id in nodes
      ensures r == GetNode(State(), id)
    {
      r := Some(Node(Some(id), nodes[id]));
    }

    /** `Triple::create`: the insert's outcome is ignored, so the returned id
        is the last-insert-rowid whether or not this insert happened. */
    method TripleCreate(subjectId: U32, predicateId: U32, objectId: U32) returns (triple: Triple)
      requires Valid() && tripleSeq + 1 < U32_LIMIT
      modifies this
      ensures Valid()
      ensures (State(), triple) == CreateTriple(old(State()), subjectId, predicateId, objectId)
    {
      ghost var before := State();
      assert Store.Valid(CreateTriple(before, subjectId, predicateId, objectId).0) by {
        CreateTripleKeepsValid(before, subjectId, predicateId, objectId);
      }
      // CREATE TABLE IF NOT EXISTS triple: afterwards the table exists either way
      tripleTableExists := true;
      // INSERT INTO triple: checked against the UNIQUE and FOREIGN KEY constraints
      var row := TripleRow(subjectId, predicateId, objectId);
      var unique := row !in tripleIndex;
      var referenced := !foreignKeys || (subjectId in nodes && predicateId in nodes && objectId in nodes);
      assert unique && referenced <==> Accepts(before, row);
      if unique && referenced {
        var rowid := tripleSeq + 1;
        triples := triples[rowid := row];
        tripleIndex := tripleIndex[row := rowid];
        tripleSeq := rowid;
        lastInsertRowid := rowid;
        assert State() == CreateTriple(before, subjectId, predicateId, objectId).0;
      } else {
        assert State() == CreateTriple(before, subjectId, predicateId, objectId).0;
      }
      triple := Triple(Some(lastInsertRowid), subjectId, predicateId, objectId);
    }

    /** `Triple::get`, on a row that exists. */
    method TripleGet(id: U32) returns (r: Option<Triple>)
      requires Valid() && tripleTableExists && id in triples
      ensures r == GetTriple(State(), id)
    {
      var row := triples[id];
      r := Some(Triple(Some(id), row.subjectId, row.predicateId, row.objectId));
    }
  }

  /** The `triple_make` test as a client of the class: the triple created
      from nodes 1, 3 and 2 gets id 1 and reads back unchanged. */
  method TripleMake() returns (triple: Triple, got: Option<Triple>)
    ensures triple == Triple(Some(1), 1, 3, 2) && got == Some(triple)
  {
    var conn := new Connection.BuildDatabase();
    var n1 := conn.NodeCreate("Boris the");
    var n2 := conn.NodeCreate("Brick Top");
    var n3 := conn.NodeCreate("Knows");
    assert n1.id == Some(1) && n2.id == Some(2) && n3.id == Some(3);
    var node1 := conn.NodeGet(1);
    var node3 := conn.NodeGet(3);
    var node2 := conn.NodeGet(2);
    assert node1 == Some(n1);
    triple := conn.TripleCreate(node1.value.id.value, node3.value.id.value, node2.value.id.value);
    got := conn.TripleGet(1);
  }
}
