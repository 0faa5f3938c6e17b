// Writing a file through a temporary file and a rename, with everything a crash may find on the way.
module AtomicWrite {

  type Bytes = seq<bv8>

  // A file's first durable bytes are those a crash cannot lose.
  datatype Entry = Stored(content: Bytes, durable: nat) | Folder

  type Listing = map<string, Entry>

  datatype Fault = NoFault | CreateFails | WriteFails(after: nat) | SyncFails | CloseFails | ChmodFails | RenameFails

  function TempName(base: string, suffix: string): (r: string)
    ensures |r| > |base| && r[0] == '.'
  {
    "." + base + ".wstmp-" + suffix
  }

  // Entries the workspace never lists.
  predicate SkipListEntry(name: string) {
    name == "_meta" || (name != "" && name[0] == '.')
  }

  // A directory of the mount. history records every state it passes through.
  class MountDir {
    var entries: Listing
    ghost var history: seq<Listing>

    constructor (entries: Listing)
      ensures this.entries == entries && history == [entries]
    {
      this.entries := entries;
      history := [entries];
    }

    method Put(name: string, e: Entry)
      modifies this
      ensures entries == old(entries)[name := e] && history == old(history) + [entries]
    {
      entries := entries[name := e];
      history := history + [entries];
    }

    method Remove(name: string)
      modifies this
      ensures entries == old(entries) - {name} && history == old(history) + [entries]
    {
      entries := entries - {name};
      history := history + [entries];
    }

    // rename(2) within the directory: one step, in which the target goes from old to new. A
    // directory is not replaced by a file.
    method Rename(from: string, to: string) returns (ok: bool)
      requires from in entries && from != to
      modifies this
      ensures ok == !(to in old(entries) && old(entries)[to].Folder?)
      ensures entries == if ok then (old(entries) - {from})[to := old(entries)[from]] else old(entries)
      ensures history == old(history) + [entries]
    {
      ok := !(to in entries && entries[to].Folder?);
      if ok {
        entries := (entries - {from})[to := entries[from]];
      }
      history := history + [entries];
    }
  }

  // ---- What may be seen on the way ----

  predicate SameAt(was: Listing, now: Listing, name: string) {
    (name in now <==> name in was) && (name in was ==> now[name] == was[name])
  }

  // The target is as it was or complete and durable, the temporary file holds part of the content,
  // and nothing else differs.
  ghost predicate Harmless(was: Listing, now: Listing, base: string, temp: string, content: Bytes) {
    && (forall n :: n != base && n != temp ==> SameAt(was, now, n))
    && (SameAt(was, now, base) || (base in now && now[base] == Stored(content, |content|) && temp !in now))
    && (temp in now ==> now[temp].Stored? && now[temp].content <= content && now[temp].durable <= |now[temp].content|)
  }

  ghost predicate HarmlessSince(h: seq<Listing>, from: nat, was: Listing, base: string, temp: string, content: Bytes) {
    forall k :: from <= k < |h| ==> Harmless(was, h[k], base, temp, content)
  }

  method AtomicWriteFile(d: MountDir, base: string, content: Bytes, suffix: string, fault: Fault, cleanup: bool)
    returns (ok: bool)
    requires TempName(base, suffix) !in d.entries
    modifies d
    ensures old(d.history) <= d.history
    ensures HarmlessSince(d.history, |old(d.history)|, old(d.entries), base, TempName(base, suffix), content)
    ensures ok <==> fault.NoFault? && !(base in old(d.entries) && old(d.entries)[base].Folder?)
    ensures ok ==> d.entries == old(d.entries)[base := Stored(content, |content|)]
    ensures !ok && (cleanup || fault.CreateFails?) ==> d.entries == old(d.entries)
  {
    hide TempName;
    ghost var was, before := d.entries, d.history;
    var tmp := TempName(base, suffix);
    if fault.CreateFails? {
      return false;
    }
    WriteBytes(d, base, tmp, content, if fault.WriteFails? then fault.after else |content|, was, before);
    if fault.WriteFails? || fault.SyncFails? {
      Cleanup(d, base, tmp, content, cleanup, was, before);
      return false;
    }
    Sync(d, base, tmp, content, was, before);
    if fault.CloseFails? || fault.ChmodFails? || fault.RenameFails? {
      Cleanup(d, base, tmp, content, cleanup, was, before);
      return false;
    }
    ok := d.Rename(tmp, base);
    if !ok {
      Cleanup(d, base, tmp, content, cleanup, was, before);
    }
  }

  // Creates the temporary file and writes the content byte by byte, up to where the write stops.
  method WriteBytes(d: MountDir, base: string, tmp: string, content: Bytes, limit: nat, ghost was: Listing,
                    ghost before: seq<Listing>)
    requires tmp !in was && tmp != base && d.entries == was && d.history == before
    modifies d
    ensures d.entries == was[tmp := Stored(content[..if limit < |content| then limit else |content|], 0)]
    ensures before <= d.history && HarmlessSince(d.history, |before|, was, base, tmp, content)
  {
    d.Put(tmp, Stored([], 0));
    var i := 0;
    while i < |content| && i < limit
      invariant i <= |content| && i <= limit
      invariant d.entries == was[tmp := Stored(content[..i], 0)]
      invariant before <= d.history && HarmlessSince(d.history, |before|, was, base, tmp, content)
    {
      assert content[..i + 1] == content[..i] + [content[i]];
      d.Put(tmp, Stored(content[..i] + [content[i]], 0));
      i := i + 1;
    }
  }

  // Flushing makes what was written durable.
  method Sync(d: MountDir, base: string, tmp: string, content: Bytes, ghost was: Listing, ghost before: seq<Listing>)
    requires tmp !in was && tmp != base
    requires d.entries == was[tmp := Stored(content[..|content|], 0)]
    requires before <= d.history && HarmlessSince(d.history, |before|, was, base, tmp, content)
    modifies d
    ensures d.entries == was[tmp := Stored(content, |content|)]
    ensures before <= d.history && HarmlessSince(d.history, |before|, was, base, tmp, content)
  {
    assert content[..|content|] == content;
    var written := d.entries[tmp].content;
    d.Put(tmp, Stored(written, |written|));
  }

  // The temporary file goes after a failure.
  method Cleanup(d: MountDir, base: string, tmp: string, content: Bytes, works: bool, ghost was: Listing,
                 ghost before: seq<Listing>)
    requires tmp !in was && tmp != base && tmp in d.entries && d.entries - {tmp} == was
    requires before <= d.history && HarmlessSince(d.history, |before|, was, base, tmp, content)
    modifies d
    ensures before <= d.history && HarmlessSince(d.history, |before|, was, base, tmp, content)
    ensures works ==> d.entries == was
  {
    if works {
      d.Remove(tmp);
    }
  }

  // ---- What a crash leaves ----

  // A crash may lose what is not durable, and nothing else.
  ghost predicate LeftByCrash(now: Listing, left: Listing) {
    && left.Keys == now.Keys
    && forall n :: n in now ==>
         if now[n].Folder? then left[n].Folder?
         else left[n].Stored? && left[n].content <= now[n].content && |left[n].content| >= now[n].durable
  }

  // A crash at any point leaves the target as it was, if that was durable, or complete; anything
  // else that differs is the temporary file, which listings skip.
  lemma CrashLeavesOldOrNew(was: Listing, now: Listing, left: Listing, base: string, suffix: string,
                                               content: Bytes, name: string)
    requires Harmless(was, now, base, TempName(base, suffix), content) && LeftByCrash(now, left)
    requires name in was && was[name].Stored? ==> was[name].durable >= |was[name].content|
    ensures name == base ==>
              || (name !in left && name !in was)
              || (name in left && left[name].Stored? && left[name].content == content)
              || (name in left && name in was && left[name].Folder? == was[name].Folder?
                  && (was[name].Stored? ==> left[name].Stored? && left[name].content == was[name].content))
    ensures name != base && !SkipListEntry(name) ==>
              && (name in left <==> name in was)
              && (name in left ==> left[name].Folder? == was[name].Folder?)
              && (name in left && was[name].Stored? ==> left[name].Stored? && left[name].content == was[name].content)
  {
    assert SkipListEntry(TempName(base, suffix));
    assert SameAt(was, now, name) || name == base || name == TempName(base, suffix);
  }
}
