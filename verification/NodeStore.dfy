// The inode index: the in-memory map and the SQL table with tombstones that must behave like it.
module NodeStore {
  import opened FileDomain

  datatype StoreOp = Upsert(m: NodeMutation) | Delete(m: NodeMutation)

  // ---- The simple store ----

  function MapStep(rows: Rows, op: StoreOp): Rows {
    match op
    case Upsert(m) => UpsertRow(rows, m)
    case Delete(m) => rows - {m.inodeID}
  }

  // The simple store spelled out: an upsert gives the inode the row of the mutation, of type file when
  // none is known, a delete takes the row away, and neither touches another inode.
  lemma MapStepSpelled(rows: Rows, i: nat, actor: NodeActor, t: NodeType)
    ensures MapStep(rows, Upsert(NodeMutation(i, actor, Some(t)))) == rows[i := NodeRecord(i, actor, t)]
    ensures MapStep(rows, Upsert(NodeMutation(i, actor, None))) == rows[i := NodeRecord(i, actor, File)]
    ensures MapStep(rows, Delete(NodeMutation(i, actor, Some(t)))).Keys == rows.Keys - {i}
    ensures forall n :: n in rows && n != i ==> MapStep(rows, Delete(NodeMutation(i, actor, Some(t))))[n] == rows[n]
  {
  }

  // The table spelled out, as a reader sees it: an upsert without a known type keeps the type of a row
  // that exists, also of a tombstoned one.
  lemma TableStepSpelled(t: Table, i: nat, actor: NodeActor, k: NodeType)
    requires KeyedByInode(t)
    ensures View(TableStep(t, Upsert(NodeMutation(i, actor, Some(k))))) == View(t)[i := NodeRecord(i, actor, k)]
    ensures i in t ==>
              View(TableStep(t, Upsert(NodeMutation(i, actor, None))))
              == View(t)[i := NodeRecord(i, actor, t[i].nodeType)]
    ensures i !in t ==>
              View(TableStep(t, Upsert(NodeMutation(i, actor, None)))) == View(t)[i := NodeRecord(i, actor, File)]
    ensures View(TableStep(t, Delete(NodeMutation(i, actor, None)))) == View(t) - {i}
  {
    UpsertView(t, NodeMutation(i, actor, Some(k)));
    UpsertView(t, NodeMutation(i, actor, None));
    StepRefines(t, Delete(NodeMutation(i, actor, None)));
  }

  function MapRun(rows: Rows, ops: seq<StoreOp>): Rows
    decreases |ops|
  {
    if ops == [] then rows else MapRun(MapStep(rows, ops[0]), ops[1..])
  }

  function Select(rows: Rows, ids: seq<nat>): Rows {
    map id | id in ids && id in rows :: rows[id]
  }

  class FileNodeStore {
    var nodes: Rows

    constructor ()
      ensures nodes == map[]
    {
      nodes := map[];
    }

    method UpsertCreatedOrUpdated(m: NodeMutation)
      modifies this
      ensures nodes == MapStep(old(nodes), Upsert(m))
    {
      var nodeType := m.nodeType;
      if nodeType.None? {
        nodeType := Some(File);
      }
      nodes := nodes[m.inodeID := NodeRecord(m.inodeID, m.actor, nodeType.value)];
    }

    method MarkDeleted(m: NodeMutation)
      modifies this
      ensures nodes == MapStep(old(nodes), Delete(m))
    {
      nodes := nodes - {m.inodeID};
    }

    method LookupByInodeIDs(inodeIDs: seq<nat>) returns (out: Rows)
      ensures out == Select(nodes, inodeIDs)
    {
      out := map[];
      for i := 0 to |inodeIDs|
        invariant out == Select(nodes, inodeIDs[..i])
      {
        var id := inodeIDs[i];
        if id in nodes {
          out := out[id := nodes[id]];
        }
      }
      assert inodeIDs[..|inodeIDs|] == inodeIDs;
    }
  }

  // ---- The table with tombstones ----

  // One row of ws_file_node; inode_id is its unique key, so a table is a map.
  datatype FileNode = FileNode(inodeID: nat, actor: NodeActor, nodeType: NodeType, deleted: bool)

  type Table = map<nat, FileNode>

  ghost predicate KeyedByInode(t: Table) {
    forall id :: id in t ==> t[id].inodeID == id
  }

  function FileNodeFromMutation(m: NodeMutation): FileNode {
    FileNode(m.inodeID, m.actor, m.nodeType.GetOr(File), false)
  }

  // The columns an update overwrites: the type only when it is a known one.
  function AssignScope(row: FileNode, actor: NodeActor, nodeType: Option<NodeType>): FileNode {
    row.(actor := actor, nodeType := nodeType.GetOr(row.nodeType))
  }

  function TableStep(t: Table, op: StoreOp): Table {
    match op
    case Upsert(m) =>
      if m.inodeID in t
      then t[m.inodeID := AssignScope(t[m.inodeID], m.actor, m.nodeType).(deleted := false)]
      else t[m.inodeID := FileNodeFromMutation(m)]
    case Delete(m) =>
      if m.inodeID in t && !t[m.inodeID].deleted
      then t[m.inodeID := AssignScope(t[m.inodeID], m.actor, None).(deleted := true)]
      else t
  }

  function TableRun(t: Table, ops: seq<StoreOp>): Table
    decreases |ops|
  {
    if ops == [] then t else TableRun(TableStep(t, ops[0]), ops[1..])
  }

  // What a reader sees: the rows with deleted_at IS NULL.
  function View(t: Table): Rows {
    map id | id in t && !t[id].deleted :: NodeRecord(t[id].inodeID, t[id].actor, t[id].nodeType)
  }

  class SqlFileNodeStore {
    var rows: Table

    constructor ()
      ensures rows == map[]
    {
      rows := map[];
    }

    method UpsertCreatedOrUpdated(m: NodeMutation)
      modifies this
      ensures rows == TableStep(old(rows), Upsert(m))
    {
      var node := FileNodeFromMutation(m);
      if m.inodeID in rows {
        var row := AssignScope(rows[m.inodeID], m.actor, m.nodeType);
        rows := rows[m.inodeID := row.(deleted := false)];
      } else {
        rows := rows[m.inodeID := node];
      }
    }

    method MarkDeleted(m: NodeMutation)
      modifies this
      ensures rows == TableStep(old(rows), Delete(m))
    {
      if m.inodeID in rows && !rows[m.inodeID].deleted {
        var row := AssignScope(rows[m.inodeID], m.actor, None);
        rows := rows[m.inodeID := row.(deleted := true)];
      }
    }

    method LookupByInodeIDs(inodeIDs: seq<nat>) returns (out: Rows)
      requires KeyedByInode(rows)
      ensures out == Select(View(rows), inodeIDs)
    {
      out := map[];
      if |inodeIDs| == 0 {
        return;
      }
      var found := set id | id in inodeIDs && id in rows && !rows[id].deleted;
      ghost var all := found;
      while found != {}
        invariant found <= all
        invariant out == map id | id in all - found :: View(rows)[id]
      {
        var id :| id in found;
        var row := rows[id];
        out := out[row.inodeID := NodeRecord(row.inodeID, row.actor, row.nodeType)];
        found := found - {id};
      }
    }
  }

  // ---- Refinement ----

  predicate KnownTypes(ops: seq<StoreOp>) {
    forall op <- ops :: op.Upsert? ==> op.m.nodeType.Some?
  }

  // The row a reader sees for the inode after an upsert of the table.
  function UpsertedRecord(t: Table, m: NodeMutation): NodeRecord {
    NodeRecord(m.inodeID, m.actor, m.nodeType.GetOr(if m.inodeID in t then t[m.inodeID].nodeType else File))
  }

  lemma UpsertView(t: Table, m: NodeMutation)
    requires KeyedByInode(t)
    ensures View(TableStep(t, Upsert(m))) == View(t)[m.inodeID := UpsertedRecord(t, m)]
  {
    var left, right := View(TableStep(t, Upsert(m))), View(t)[m.inodeID := UpsertedRecord(t, m)];
    assert left.Keys == right.Keys;
    assert left[m.inodeID] == right[m.inodeID];
    forall id | id in right && id != m.inodeID ensures left[id] == right[id] {
      assert TableStep(t, Upsert(m))[id] == t[id];
    }
  }

  // Exactly when one upsert of the table looks like an upsert of the map: the two treat an unknown
  // node type differently once the inode has a row, live or tombstoned.
  lemma UpsertRefinesIff(t: Table, m: NodeMutation)
    requires KeyedByInode(t)
    ensures View(TableStep(t, Upsert(m))) == MapStep(View(t), Upsert(m)) <==>
            m.nodeType.Some? || m.inodeID !in t || t[m.inodeID].nodeType == File
  {
    UpsertView(t, m);
    SameUpdate(View(t), m.inodeID, UpsertedRecord(t, m), RecordOf(m));
  }

  lemma SameUpdate(rows: Rows, id: nat, a: NodeRecord, b: NodeRecord)
    ensures rows[id := a] == rows[id := b] <==> a == b
  {
    assert rows[id := a][id] == a && rows[id := b][id] == b;
  }

  // An input that separates the two stores: the table after a directory's row was deleted, and an
  // upsert of the same inode with an empty node type.
  lemma UnknownTypeSeparatesStores(actor: NodeActor)
    ensures var t: Table := map[7 := FileNode(7, actor, Directory, true)];
            var m := NodeMutation(7, actor, None);
            View(TableStep(t, Upsert(m))) != MapStep(View(t), Upsert(m))
  {
    UpsertRefinesIff(map[7 := FileNode(7, actor, Directory, true)], NodeMutation(7, actor, None));
  }

  lemma StepRefines(t: Table, op: StoreOp)
    requires KeyedByInode(t) && KnownTypes([op])
    ensures KeyedByInode(TableStep(t, op))
    ensures View(TableStep(t, op)) == MapStep(View(t), op)
  {
    if op.Upsert? {
      assert op in [op];
      UpsertRefinesIff(t, op.m);
    }
  }

  // Under any sequence of upserts with known node types and deletes, the table read through its
  // tombstone filter is the map, and so is every lookup.
  lemma {:induction false} TableRefinesMap(t: Table, ops: seq<StoreOp>)
    requires KeyedByInode(t) && KnownTypes(ops)
    ensures KeyedByInode(TableRun(t, ops))
    ensures View(TableRun(t, ops)) == MapRun(View(t), ops)
    ensures forall ids: seq<nat> :: Select(View(TableRun(t, ops)), ids) == Select(MapRun(View(t), ops), ids)
    decreases |ops|
  {
    if ops != [] {
      assert ops[0] in ops;
      StepRefines(t, ops[0]);
      TableRefinesMap(TableStep(t, ops[0]), ops[1..]);
    }
  }
}
