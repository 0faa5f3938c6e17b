// The tree operations of the workspace and its recycle bin, as functions of the tree, the trash
// metadata, the inode index and what the file system and the stores answer.
module Workspace {
  import opened FileDomain
  import opened PosixTree
  import opened TrashNames
  import CopyTree

  // A path below the user's root.
  type Below = p: Path | p != [] witness ["trash"]

  const TRASH: Below := ["trash"]

  // The one path whose entry would be the metadata directory itself (TrashNames.MetaNameOnlyOfMeta).
  const META: Below := ["_meta"]

  // A path below the root other than that one.
  type Deletable = p: Path | p != [] && p != ["_meta"] witness ["trash"]

  function EntryPath(e: string): Below {
    ["trash", e]
  }

  // meta gives the original path recorded for an entry name. The directory trash/_meta that holds
  // these records is not part of tree.
  datatype WS = WS(tree: Tree, meta: map<string, Below>, rows: Rows)

  // One request: who asks, whether there is an index, the inodes the file system would give to new
  // nodes, and which calls work.
  datatype Ctx = Ctx(
    actor: NodeActor,
    hasStore: bool,
    alloc: Path -> nat,
    mkdir: bool,
    rename: bool,
    metaWrite: bool,
    undo: bool,
    metaRemove: string -> bool,
    metaDirRemove: bool,
    remove: Path -> bool,
    markDeleted: nat -> bool,
    upsert: bool)

  datatype Reply =
    | Ok
    | ErrNotFound
    | ErrInvalidRequest
    | ErrAlreadyExists
    | ErrNotAFile
    | ErrIO

  // ---- The index ----

  // recordUpsert: the row of whatever is at p now, its type taken from the directory bit.
  function Recorded(rows: Rows, t: Tree, p: Path, c: Ctx): Rows {
    if c.hasStore && c.upsert && p in t
    then UpsertRow(rows, NodeMutation(t[p].inode, c.actor, Some(NodeTypeFromDir(t[p].DirNode?))))
    else rows
  }

  function RowDropped(rows: Rows, inode: nat, c: Ctx): Rows {
    if c.hasStore && c.markDeleted(inode) then rows - {inode} else rows
  }

  // ---- Soft delete and restore ----

  function TryMkdir(t: Tree, p: Path, c: Ctx): Option<Tree> {
    if c.mkdir then MkdirAll(t, p, c.alloc) else None
  }

  function TryRename(t: Tree, src: Path, dst: Path, works: bool): Option<Tree> {
    if works then Rename(t, src, dst) else None
  }

  function SoftDelete(w: WS, p: Path, c: Ctx): (WS, Reply)
    requires p != META
  {
    if p == [] || TRASH <= p then (w, ErrInvalidRequest)
    else
      var e := EntryName(p);
      var dir := TryMkdir(w.tree, TRASH, c);
      if dir.None? then (w, ErrIO)
      else if EntryPath(e) in dir.value then (w.(tree := dir.value), ErrAlreadyExists)
      else PutAway(w.(tree := dir.value), p, e, c)
  }

  // The move into the trash: a move whose record cannot be written is taken back.
  function PutAway(w: WS, p: Below, e: string, c: Ctx): (WS, Reply) {
    var moved := TryRename(w.tree, p, EntryPath(e), c.rename);
    if moved.None? then (w, ErrIO)
    else if !c.metaWrite
    then (w.(tree := TryRename(moved.value, EntryPath(e), p, c.undo).GetOr(moved.value)), ErrIO)
    else
      (WS(moved.value, w.meta[e := p], Recorded(w.rows, moved.value, EntryPath(e), c)), Ok)
  }

  function RestorePath(w: WS, trashPath: Path, c: Ctx): (WS, Reply) {
    if !(TRASH <= trashPath) then (w, ErrInvalidRequest)
    else
      var e := Name(trashPath);
      if e !in w.meta then (w, ErrNotFound)
      else
        var dest := w.meta[e];
        var dir := TryMkdir(w.tree, Parent(dest), c);
        if dir.None? then (w, ErrIO)
        else if dest in dir.value then (w.(tree := dir.value), ErrAlreadyExists)
        else PutBack(w.(tree := dir.value), trashPath, e, dest, c)
  }

  function PutBack(w: WS, trashPath: Path, e: string, dest: Below, c: Ctx): (WS, Reply) {
    var moved := TryRename(w.tree, trashPath, dest, c.rename);
    if moved.None? then (w, ErrIO)
    else
      (WS(moved.value, if c.metaRemove(e) then w.meta - {e} else w.meta, Recorded(w.rows, moved.value, dest, c)), Ok)
  }

  // ---- Permanent deletion and emptying ----

  function DeletePath(w: WS, p: Below, soft: bool, permanent: bool, c: Ctx): (WS, Reply)
    requires soft && !permanent ==> p != META
  {
    match Stat(w.tree, p)
    case NotExist => (w, ErrNotFound)
    case NotADirectory => (w, ErrIO)
    case Found(node) =>
      if soft && !permanent then SoftDelete(w, p, c) else Purge(w, p, node, c)
  }

  // Removing the trash directory removes the metadata records in it.
  function Purge(w: WS, p: Below, node: Node, c: Ctx): (WS, Reply) {
    var w1 := w.(rows := RowDropped(w.rows, node.inode, c));
    if !c.remove(p) then (w1, ErrIO)
    else (w1.(tree := RemoveAll(w.tree, p), meta := if p == TRASH then map[] else w.meta), Ok)
  }

  function EmptySweep(w: WS, entries: seq<string>, c: Ctx): (WS, Reply)
    decreases |entries|
  {
    if entries == [] then (w, Ok)
    else
      var e := entries[0];
      var (w1, r) := DeletePath(w, EntryPath(e), false, true, c);
      if r != Ok then (w1, r)
      else EmptySweep(w1.(meta := if c.metaRemove(e) then w1.meta - {e} else w1.meta), entries[1..], c)
  }

  // entries is what reading the trash directory lists.
  function EmptyRecycleBin(w: WS, entries: seq<string>, c: Ctx): (WS, Reply) {
    match Stat(w.tree, TRASH)
    case NotExist => (w, Ok)
    case NotADirectory => (w, ErrIO)
    case Found(node) =>
      if node.FileNode? then (w, ErrIO)
      else
        var (w1, r) := EmptySweep(w, entries, c);
        if r != Ok then (w1, r) else (w1.(meta := if c.metaDirRemove then map[] else w1.meta), Ok)
  }

  // The entries of the trash directory, each once.
  ghost predicate ListsTrash(t: Tree, entries: seq<string>) {
    && (forall e :: e in entries <==> EntryPath(e) in t)
    && (forall a, b :: 0 <= a < b < |entries| ==> entries[a] != entries[b])
  }

  // ---- Rename and move ----

  function RenameOrMove(w: WS, src: Path, dest: Path, overwrite: bool, c: Ctx): (WS, Reply) {
    match Stat(w.tree, src)
    case NotExist => (w, ErrNotFound)
    case NotADirectory => (w, ErrIO)
    case Found(node) =>
      if src == dest then (w, Ok)
      else
        match Stat(w.tree, dest)
        case NotADirectory => (w, ErrIO)
        case Found(there) =>
          if node.DirNode? != there.DirNode? then (w, ErrInvalidRequest)
          else if !overwrite then (w, ErrAlreadyExists)
          else Relocate(w, src, node, dest, c)
        case NotExist =>
          if dest == [] then (w, ErrIO)
          else
            var dir := TryMkdir(w.tree, Parent(dest), c);
            if dir.None? then (w, ErrIO) else Relocate(w.(tree := dir.value), src, node, dest, c)
  }

  // The end of a move: the old row goes, the tree is renamed, and what arrived is recorded.
  function Relocate(w: WS, src: Path, node: Node, dest: Path, c: Ctx): (WS, Reply) {
    var w1 := w.(rows := RowDropped(w.rows, node.inode, c));
    var moved := TryRename(w.tree, src, dest, c.rename);
    if moved.None? then (w1, ErrIO)
    else (w1.(tree := moved.value, rows := Recorded(w1.rows, moved.value, dest, c)), Ok)
  }

  // ---- Copy ----

  // walk is the order in which a directory at src is walked.
  function CopyPath(w: WS, src: Path, dest: Path, overwrite: bool, walk: seq<CopyTree.Rel>, c: Ctx): (WS, Reply) {
    match Stat(w.tree, src)
    case NotExist => (w, ErrNotFound)
    case NotADirectory => (w, ErrIO)
    case Found(node) =>
      match Stat(w.tree, dest)
      case NotADirectory => (w, ErrIO)
      case Found(there) =>
        if node.DirNode? != there.DirNode? then (w, ErrInvalidRequest)
        else if !overwrite then (w, ErrAlreadyExists)
        else CopyNode(w, src, node, dest, walk, c)
      case NotExist =>
        if dest == [] then (w, ErrIO)
        else
          var dir := TryMkdir(w.tree, Parent(dest), c);
          if dir.None? then (w, ErrIO) else CopyNode(w.(tree := dir.value), src, node, dest, walk, c)
  }

  // The copy itself; only the node at dest is recorded.
  function CopyNode(w: WS, src: Path, node: Node, dest: Path, walk: seq<CopyTree.Rel>, c: Ctx): (WS, Reply) {
    var (t, ok) := if node.DirNode? then CopyTree.CopyDir(w.tree, src, dest, walk, c.alloc)
                   else if dest == [] then (w.tree, false)
                   else CopyTree.CopyFile(w.tree, src, dest, c.alloc);
    if !ok then (w.(tree := t), ErrIO) else (w.(tree := t, rows := Recorded(w.rows, t, dest, c)), Ok)
  }

  // ---- Creation ----

  function CreateFolder(w: WS, p: Path, c: Ctx): (WS, Reply) {
    var dir := TryMkdir(w.tree, p, c);
    if dir.None? then (w, ErrIO) else (w.(tree := dir.value), Ok)
  }

  // A written file is a new file renamed over the path, so it has a new inode.
  function CreateFile(w: WS, p: Below, content: string, overwrite: bool, c: Ctx): (WS, Reply) {
    var dir := TryMkdir(w.tree, Parent(p), c);
    if dir.None? then (w, ErrIO)
    else
      var w1 := w.(tree := dir.value);
      if IsDir(dir.value, p) then (w1, ErrNotAFile)
      else if p in dir.value && !overwrite then (w1, ErrAlreadyExists)
      else if !c.rename then (w1, ErrIO)
      else (w1.(tree := dir.value[p := FileNode(c.alloc(p), content)]), Ok)
  }
}
