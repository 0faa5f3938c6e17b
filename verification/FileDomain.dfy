// Entities shared by the inode index and the write-ahead journal.
module FileDomain {
  datatype Option<+T> = None | Some(value: T) {
    function GetOr(default: T): T {
      if None? then default else value
    }
  }

  // Who performed a file operation within a tenant workspace.
  datatype NodeActor = NodeActor(ownerUIN: string, uin: string, appID: string, workspaceID: string)

  datatype NodeType = File | Directory | GitFolder | Notebook

  // The ownership row of an inode.
  datatype NodeRecord = NodeRecord(inodeID: nat, actor: NodeActor, nodeType: NodeType)

  // The node type of a mutation is the known type its string spells, if it spells one.
  datatype NodeMutation = NodeMutation(inodeID: nat, actor: NodeActor, nodeType: Option<NodeType>)

  function NodeTypeFromDir(isDir: bool): NodeType {
    if isDir then Directory else File
  }

  // The row an upsert leaves behind in a store that keeps no tombstones.
  function RecordOf(m: NodeMutation): NodeRecord {
    NodeRecord(m.inodeID, m.actor, m.nodeType.GetOr(File))
  }

  // What one call of a store operation did. A call that reports an error may still have been
  // applied (a lost reply), so the two are separate.
  datatype CallResult = Succeeded | Failed(applied: bool) {
    predicate Applied() { Succeeded? || applied }
  }

  type Rows = map<nat, NodeRecord>

  function UpsertRow(rows: Rows, m: NodeMutation): Rows {
    rows[m.inodeID := RecordOf(m)]
  }
}
