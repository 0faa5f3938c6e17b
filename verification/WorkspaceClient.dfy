// The workspace client itself: methods that call the file system and the index one step at a time,
// proved against the functions of modules Workspace and CopyTree.
module WorkspaceClient {
  import opened FileDomain
  import opened NodeStore
  import opened PosixTree
  import opened TrashNames
  import opened Workspace
  import CopyTree

  // The mounted file system, with the directory trash/_meta as a table of records.
  class Mount {
    var tree: Tree
    var meta: map<string, Below>

    constructor (tree: Tree)
      ensures this.tree == tree && meta == map[]
    {
      this.tree, meta := tree, map[];
    }

    method Mkdir(p: Path, works: bool, alloc: Path -> nat) returns (ok: bool)
      modifies this`tree
      ensures var r := if works then MkdirAll(old(tree), p, alloc) else None;
              ok == r.Some? && tree == r.GetOr(old(tree))
    {
      var r := if works then MkdirAll(tree, p, alloc) else None;
      tree := r.GetOr(tree);
      ok := r.Some?;
    }

    method Move(src: Path, dst: Path, works: bool) returns (ok: bool)
      modifies this`tree
      ensures var r := if works then Rename(old(tree), src, dst) else None;
              ok == r.Some? && tree == r.GetOr(old(tree))
    {
      var r := if works then Rename(tree, src, dst) else None;
      tree := r.GetOr(tree);
      ok := r.Some?;
    }
  }

  class WorkspaceFSClient {
    const mount: Mount
    const store: FileNodeStore?

    constructor (store: FileNodeStore?, mount: Mount)
      ensures this.store == store && this.mount == mount
    {
      this.store, this.mount := store, mount;
    }

    ghost function State(): WS
      reads mount, store
    {
      WS(mount.tree, mount.meta, if store == null then map[] else store.nodes)
    }

    function Here(c: Ctx): Ctx {
      c.(hasStore := store != null)
    }

    method RecordUpsert(p: Path, c: Ctx)
      modifies store
      ensures State() == old(State()).(rows := Recorded(old(State()).rows, mount.tree, p, Here(c)))
    {
      if store == null || p !in mount.tree {
        return;
      }
      var node := mount.tree[p];
      if c.upsert {
        store.UpsertCreatedOrUpdated(NodeMutation(node.inode, c.actor, Some(NodeTypeFromDir(node.DirNode?))));
      }
    }

    method MarkDeleted(inode: nat, c: Ctx)
      modifies store
      ensures State() == old(State()).(rows := RowDropped(old(State()).rows, inode, Here(c)))
    {
      if store != null && c.markDeleted(inode) {
        store.MarkDeleted(NodeMutation(inode, c.actor, None));
      }
    }

    method SoftDelete(p: Path, c: Ctx) returns (r: Reply)
      requires p != META
      modifies mount, store
      ensures (State(), r) == Workspace.SoftDelete(old(State()), p, Here(c))
    {
      hide Workspace.PutAway, MkdirAll, EntryName;
      if p == [] || TRASH <= p {
        return ErrInvalidRequest;
      }
      var entryName := EntryName(p);
      var ok := mount.Mkdir(TRASH, c.mkdir, c.alloc);
      if !ok {
        return ErrIO;
      }
      if EntryPath(entryName) in mount.tree {
        return ErrAlreadyExists;
      }
      r := PutAway(p, entryName, c);
    }

    method PutAway(p: Below, entryName: string, c: Ctx) returns (r: Reply)
      modifies mount, store
      ensures (State(), r) == Workspace.PutAway(old(State()), p, entryName, Here(c))
    {
      hide MkdirAll, Rename, Recorded;
      var ok := mount.Move(p, EntryPath(entryName), c.rename);
      if !ok {
        return ErrIO;
      }
      if !c.metaWrite {
        ok := mount.Move(EntryPath(entryName), p, c.undo);
        return ErrIO;
      }
      mount.meta := mount.meta[entryName := p];
      RecordUpsert(EntryPath(entryName), c);
      return Ok;
    }

    method RestorePath(trashPath: Path, c: Ctx) returns (r: Reply)
      modifies mount, store
      ensures (State(), r) == Workspace.RestorePath(old(State()), trashPath, Here(c))
    {
      hide Workspace.PutBack, MkdirAll;
      if !(TRASH <= trashPath) {
        return ErrInvalidRequest;
      }
      var entryName := Name(trashPath);
      if entryName !in mount.meta {
        return ErrNotFound;
      }
      var dest := mount.meta[entryName];
      var ok := mount.Mkdir(Parent(dest), c.mkdir, c.alloc);
      if !ok {
        return ErrIO;
      }
      if dest in mount.tree {
        return ErrAlreadyExists;
      }
      r := PutBack(trashPath, entryName, dest, c);
    }

    method PutBack(trashPath: Path, entryName: string, dest: Below, c: Ctx) returns (r: Reply)
      modifies mount, store
      ensures (State(), r) == Workspace.PutBack(old(State()), trashPath, entryName, dest, Here(c))
    {
      hide MkdirAll, Rename, Recorded;
      var ok := mount.Move(trashPath, dest, c.rename);
      if !ok {
        return ErrIO;
      }
      if c.metaRemove(entryName) {
        mount.meta := mount.meta - {entryName};
      }
      RecordUpsert(dest, c);
      return Ok;
    }

    method DeletePath(p: Below, soft: bool, permanent: bool, c: Ctx) returns (r: Reply)
      requires soft && !permanent ==> p != META
      modifies mount, store
      ensures (State(), r) == Workspace.DeletePath(old(State()), p, soft, permanent, Here(c))
    {
      hide Workspace.SoftDelete, Workspace.Purge, Stat;
      var found := Stat(mount.tree, p);
      if found.NotExist? {
        return ErrNotFound;
      }
      if found.NotADirectory? {
        return ErrIO;
      }
      if soft && !permanent {
        r := SoftDelete(p, c);
        return;
      }
      r := Purge(p, found.node, c);
    }

    method Purge(p: Below, node: Node, c: Ctx) returns (r: Reply)
      modifies mount, store
      ensures (State(), r) == Workspace.Purge(old(State()), p, node, Here(c))
    {
      hide RemoveAll, RowDropped;
      MarkDeleted(node.inode, c);
      if !c.remove(p) {
        return ErrIO;
      }
      mount.tree := RemoveAll(mount.tree, p);
      if p == TRASH {
        mount.meta := map[];
      }
      return Ok;
    }

    method EmptyRecycleBin(entries: seq<string>, c: Ctx) returns (r: Reply)
      modifies mount, store
      ensures (State(), r) == Workspace.EmptyRecycleBin(old(State()), entries, Here(c))
    {
      hide Workspace.DeletePath, Stat;
      var found := Stat(mount.tree, TRASH);
      if found.NotExist? {
        return Ok;
      }
      if found.NotADirectory? || found.node.FileNode? {
        return ErrIO;
      }
      ghost var goal := EmptySweep(State(), entries, Here(c));
      var rest := entries;
      while rest != []
        invariant EmptySweep(State(), rest, Here(c)) == goal
        decreases |rest|
      {
        var entry := rest[0];
        r := DeletePath(EntryPath(entry), false, true, c);
        if r != Ok {
          return;
        }
        if c.metaRemove(entry) {
          mount.meta := mount.meta - {entry};
        }
        rest := rest[1..];
      }
      if c.metaDirRemove {
        mount.meta := map[];
      }
      return Ok;
    }

    method RenameOrMove(src: Path, dest: Path, overwrite: bool, c: Ctx) returns (r: Reply)
      modifies mount, store
      ensures (State(), r) == Workspace.RenameOrMove(old(State()), src, dest, overwrite, Here(c))
    {
      hide Workspace.Relocate, Stat, MkdirAll;
      var srcInfo := Stat(mount.tree, src);
      if srcInfo.NotExist? {
        return ErrNotFound;
      }
      if srcInfo.NotADirectory? {
        return ErrIO;
      }
      if src == dest {
        return Ok;
      }
      var destInfo := Stat(mount.tree, dest);
      if destInfo.NotADirectory? {
        return ErrIO;
      }
      if destInfo.Found? {
        if srcInfo.node.DirNode? != destInfo.node.DirNode? {
          return ErrInvalidRequest;
        }
        if !overwrite {
          return ErrAlreadyExists;
        }
      } else {
        if dest == [] {
          return ErrIO;
        }
        var made := mount.Mkdir(Parent(dest), c.mkdir, c.alloc);
        if !made {
          return ErrIO;
        }
      }
      r := Relocate(src, srcInfo.node, dest, c);
    }

    method Relocate(src: Path, node: Node, dest: Path, c: Ctx) returns (r: Reply)
      modifies mount, store
      ensures (State(), r) == Workspace.Relocate(old(State()), src, node, dest, Here(c))
    {
      hide Rename, Recorded, RowDropped;
      MarkDeleted(node.inode, c);
      var ok := mount.Move(src, dest, c.rename);
      if !ok {
        return ErrIO;
      }
      RecordUpsert(dest, c);
      return Ok;
    }

    // ---- Copy ----

    method CopyPath(src: Path, dest: Path, overwrite: bool, walk: seq<CopyTree.Rel>, c: Ctx) returns (r: Reply)
      modifies mount, store
      ensures (State(), r) == Workspace.CopyPath(old(State()), src, dest, overwrite, walk, Here(c))
    {
      hide Workspace.CopyNode, Stat, MkdirAll;
      var srcInfo := Stat(mount.tree, src);
      if srcInfo.NotExist? {
        return ErrNotFound;
      }
      if srcInfo.NotADirectory? {
        return ErrIO;
      }
      var destInfo := Stat(mount.tree, dest);
      if destInfo.NotADirectory? {
        return ErrIO;
      }
      if destInfo.Found? {
        if srcInfo.node.DirNode? != destInfo.node.DirNode? {
          return ErrInvalidRequest;
        }
        if !overwrite {
          return ErrAlreadyExists;
        }
      } else {
        if dest == [] {
          return ErrIO;
        }
        var made := mount.Mkdir(Parent(dest), c.mkdir, c.alloc);
        if !made {
          return ErrIO;
        }
      }
      r := CopyNode(src, srcInfo.node, dest, walk, c);
    }

    method CopyNode(src: Path, node: Node, dest: Path, walk: seq<CopyTree.Rel>, c: Ctx) returns (r: Reply)
      modifies mount, store
      ensures (State(), r) == Workspace.CopyNode(old(State()), src, node, dest, walk, Here(c))
    {
      hide CopyTree.CopyDir, CopyTree.CopyFile, Recorded;
      ghost var goal := Workspace.CopyNode(State(), src, node, dest, walk, Here(c));
      var ok := false;
      if node.DirNode? {
        ok := CopyDir(src, dest, walk, c.alloc);
      } else if dest != [] {
        ok := CopyFile(src, dest, c.alloc);
      }
      assert State() == old(State()).(tree := mount.tree);
      assert goal == if ok then (State().(rows := Recorded(State().rows, mount.tree, dest, Here(c))), Ok)
                     else (State(), ErrIO);
      if !ok {
        return ErrIO;
      }
      RecordUpsert(dest, c);
      return Ok;
    }

    method CopyFile(src: Path, dst: Path, alloc: Path -> nat) returns (ok: bool)
      requires dst != []
      modifies mount`tree
      ensures (mount.tree, ok) == CopyTree.CopyFile(old(mount.tree), src, dst, alloc)
    {
      ok := mount.Mkdir(Parent(dst), true, alloc);
      if !ok {
        return false;
      }
      if !IsFile(mount.tree, src) || IsDir(mount.tree, dst) {
        return false;
      }
      var inode := if dst in mount.tree then mount.tree[dst].inode else alloc(dst);
      ghost var above := mount.tree;
      mount.tree := mount.tree[dst := Node.FileNode(inode, "")];
      var content := mount.tree[src].content;
      mount.tree := mount.tree[dst := Node.FileNode(inode, content)];
      assert mount.tree == above[dst := Node.FileNode(inode, content)];
      return true;
    }

    method CopyDir(src: Path, dst: Path, walk: seq<CopyTree.Rel>, alloc: Path -> nat) returns (ok: bool)
      modifies mount`tree
      ensures (mount.tree, ok) == CopyTree.CopyDir(old(mount.tree), src, dst, walk, alloc)
    {
      if src !in mount.tree {
        return false;
      }
      ok := mount.Mkdir(dst, true, alloc);
      if !ok {
        return false;
      }
      ghost var goal := CopyTree.CopyEntries(mount.tree, src, dst, walk, alloc);
      var rest := walk;
      while rest != []
        invariant CopyTree.CopyEntries(mount.tree, src, dst, rest, alloc) == goal
        decreases |rest|
      {
        var rel := rest[0];
        if IsDir(mount.tree, src + rel) {
          ok := mount.Mkdir(dst + rel, true, alloc);
        } else {
          ok := CopyFile(src + rel, dst + rel, alloc);
        }
        if !ok {
          return false;
        }
        rest := rest[1..];
      }
      return true;
    }
  }
}
