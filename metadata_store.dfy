/**
 * The handlers of app.py as they run: one loaded metadata dictionary whose
 * tables the route updates in place. Each method answers the route's status
 * code and leaves the dictionary it would save (or, on a refusal, the one it
 * loaded), and is proved to agree with the route's rule in `StoreRules`.
 */
module MetadataStore {
  import opened Wrappers
  import opened Text
  import opened StoreData
  import opened ParentWalk
  import opened StoreRules

  class Metadata {
    var groups: map<string, Group>
    var files: map<string, FileEntry>
    var texts: map<string, TextEntry>

    /** The dictionary as a value. */
    function State(): Store
      reads this
    {
      Store(groups, files, texts)
    }

    /** `load_metadata` followed by `_ensure_groups`: every entry but `__debug__` gets a group, `root` by default. */
    constructor Load(loaded: Option<map<string, Group>>, files0: map<string, FileEntry>, texts0: map<string, TextEntry>)
      ensures State() == Loaded(loaded, files0, texts0)
    {
      groups := if loaded.Some? then loaded.value else RootOnly();
      texts := texts0;
      var acc: map<string, FileEntry> := map[];
      var todo := files0.Keys;
      while todo != {}
        invariant todo <= files0.Keys
        invariant acc.Keys == files0.Keys - todo
        invariant forall k :: k in acc ==> acc[k] == if k == DebugKey then files0[k] else DefaultGroup(files0[k])
        decreases todo
      {
        var k :| k in todo;
        acc := acc[k := if k == DebugKey then files0[k] else DefaultGroup(files0[k])];
        todo := todo - {k};
      }
      assert acc == DefaultedFiles(files0);
      files := acc;
    }

    /** `api_groups` POST with the fresh id `gid` and the caller's address `createdBy`. */
    method CreateGroup(name: string, parent: Option<string>, isLocal: bool, allowRemote: bool,
                       gid: string, createdBy: string) returns (status: int)
      modifies this
      ensures Outcome(status, State()) == CreateOutcome(old(State()), name, parent, isLocal, allowRemote, gid, createdBy)
    {
      var n := PyStrip(name);
      if n == [] {
        return 400;
      }
      if !isLocal && !allowRemote {
        return 403;
      }
      var p := StripOr(parent, RootId);
      groups := groups[gid := Group(n, Some(p), createdBy, false, false)];
      return 201;
    }

    /**
     * `api_group_update`. The cycle check walks the parent chain from the
     * new parent until it stops (no parent, `''` or `root`) or meets `gid`;
     * that walk ends because the table is acyclic.
     */
    method UpdateGroup(gid: string, name: Option<string>, parent: Option<string>, pinned: Option<bool>, isLocal: bool)
      returns (status: int)
      requires Acyclic(groups)
      modifies this
      ensures Outcome(status, State()) == UpdateOutcome(old(State()), gid, name, parent, pinned, isLocal)
    {
      if !isLocal {
        return 403;
      }
      if gid !in groups {
        return 404;
      }
      var g := groups[gid];
      if name.Some? {
        var n := PyStrip(name.value);
        if n == [] {
          return 400;
        }
        g := g.(name := n);
      }
      if parent.Some? {
        var pid := PyStrip(parent.value);
        if pid != RootId && pid !in groups {
          return 400;
        }
        if pid == gid {
          return 400;
        }
        var curr := Some(pid);
        ghost var seen: set<string> := {};
        assert Ends(groups, curr, seen) by {
          if pid in groups {
            assert Ends(groups, Some(pid), {});
          }
        }
        while !Stops(curr)
          invariant Ends(groups, curr, seen)
          invariant Hits(groups, Some(pid), gid, {}) <==> Hits(groups, curr, gid, seen)
          decreases groups.Keys - seen, if curr.Some? then 1 else 0
        {
          if curr.value == gid {
            return 400;
          }
          seen := seen + {curr.value};
          curr := Next(groups, curr.value);
        }
        g := g.(parentId := Some(pid));
      }
      if pinned.Some? {
        g := g.(isPinned := pinned.value);
      }
      groups := groups[gid := g];
      return 200;
    }

    /** `api_group_delete`: child groups move to the deleted group's parent, then its files move or go, then its row goes. */
    method DeleteGroup(gid: string, mode: Option<string>, isLocal: bool) returns (status: int)
      modifies this
      ensures Outcome(status, State()) == DeleteGroupOutcome(old(State()), gid, mode, isLocal)
    {
      if !isLocal {
        return 403;
      }
      if gid !in groups || gid == RootId {
        return 404;
      }
      var to := ParentOrRoot(groups[gid]);
      ReparentChildren(gid);
      MoveGroupFiles(gid, to, WithFiles(mode));
      groups := groups - {gid};
      return 200;
    }

    /** The first loop of `api_group_delete`: every group whose parent is `gid` takes `gid`'s parent, or `root`. */
    method ReparentChildren(gid: string)
      requires gid in groups
      modifies this
      ensures gid in groups && groups - {gid} == Reparented(old(groups), gid)
      ensures files == old(files) && texts == old(texts)
    {
      var to := ParentOrRoot(groups[gid]);
      ghost var g0 := groups;
      var todo := groups.Keys;
      while todo != {}
        invariant todo <= g0.Keys && groups.Keys == g0.Keys
        invariant files == old(files) && texts == old(texts)
        invariant forall k :: k in g0 && k in todo ==> groups[k] == g0[k]
        invariant forall k :: k in g0 && k !in todo ==>
                    groups[k] == if g0[k].parentId == Some(gid) then g0[k].(parentId := Some(to)) else g0[k]
        decreases todo
      {
        var k :| k in todo;
        if groups[k].parentId == Some(gid) {
          groups := groups[k := groups[k].(parentId := Some(to))];
        }
        todo := todo - {k};
      }
      assert groups - {gid} == Reparented(g0, gid);
    }

    /** The second loop of `api_group_delete`: the entries of `gid` (not `__debug__`) leave, or move to `to`. */
    method MoveGroupFiles(gid: string, to: string, withFiles: bool)
      modifies this
      ensures files == if withFiles then DroppedFiles(old(files), gid) else MovedFiles(old(files), gid, to)
      ensures groups == old(groups) && texts == old(texts)
    {
      ghost var f0 := files;
      var names := files.Keys;
      while names != {}
        invariant names <= f0.Keys
        invariant files.Keys <= f0.Keys
        invariant groups == old(groups) && texts == old(texts)
        invariant forall k :: k in f0 && k in names ==> k in files && files[k] == f0[k]
        invariant withFiles ==> forall k :: k in f0 && k !in names ==>
                    (k in files <==> k == DebugKey || f0[k].groupId != Some(gid)) && (k in files ==> files[k] == f0[k])
        invariant !withFiles ==> files.Keys == f0.Keys
        invariant !withFiles ==> forall k :: k in f0 && k !in names ==>
                    files[k] == if k != DebugKey && f0[k].groupId == Some(gid) then f0[k].(groupId := Some(to)) else f0[k]
        decreases names
      {
        var k :| k in names;
        if k != DebugKey && files[k].groupId == Some(gid) {
          if withFiles {
            files := files - {k};
          } else {
            files := files[k := files[k].(groupId := Some(to))];
          }
        }
        names := names - {k};
      }
      assert withFiles ==> files == DroppedFiles(f0, gid);
      assert !withFiles ==> files == MovedFiles(f0, gid, to);
    }

    /** `api_groups` GET: the visible ids, their children buckets, then one item per visible id. Changes nothing. */
    method ListGroups(isLocal: bool) returns (items: map<string, Listed>)
      ensures items == Listing(groups, isLocal)
    {
      var vis := VisibleIds(isLocal);
      var children := ChildBuckets(vis);
      items := map[];
      var rest := vis;
      while rest != {}
        invariant rest <= vis
        invariant items.Keys == vis - rest
        invariant forall k :: k in items ==> items[k] == Listing(groups, isLocal)[k]
        decreases rest
      {
        var k :| k in rest;
        var ch := if Some(k) in children then children[Some(k)] else {};
        assert ch == set c | c in vis && Bucket(groups, vis, c) == Some(k);
        items := items[k := Listed(groups[k].name, ShownParent(groups, vis, k), ch, groups[k].hidden, groups[k].isPinned)];
        rest := rest - {k};
      }
    }

    /** The ids the caller may see: all of them for a local caller, the non-hidden ones otherwise. */
    method VisibleIds(isLocal: bool) returns (vis: set<string>)
      ensures vis == Visible(groups, isLocal)
    {
      vis := {};
      if isLocal {
        vis := groups.Keys;
      } else {
        var todo := groups.Keys;
        while todo != {}
          invariant todo <= groups.Keys
          invariant forall k :: k in vis <==> k in groups && k !in todo && !groups[k].hidden
          decreases todo
        {
          var k :| k in todo;
          if !groups[k].hidden {
            vis := vis + {k};
          }
          todo := todo - {k};
        }
      }
    }

    /** The visible ids grouped by their children bucket. */
    method ChildBuckets(vis: set<string>) returns (children: map<Option<string>, set<string>>)
      requires vis <= groups.Keys
      ensures forall p :: p in children ==> forall c :: c in children[p] <==> c in vis && Bucket(groups, vis, c) == p
      ensures forall c :: c in vis ==> Bucket(groups, vis, c) in children
    {
      children := map[];
      var rest := vis;
      while rest != {}
        invariant rest <= vis
        invariant forall p :: p in children ==>
                    forall c :: c in children[p] <==> c in vis && c !in rest && Bucket(groups, vis, c) == p
        invariant forall c :: c in vis && c !in rest ==> Bucket(groups, vis, c) in children
        decreases rest
      {
        var k :| k in rest;
        var b := Bucket(groups, vis, k);
        children := children[b := (if b in children then children[b] else {}) + {k}];
        rest := rest - {k};
      }
    }

    /** `api_set_file_group`; `onDisk` stands for the file existing in the upload folder. */
    method SetFileGroup(filename: string, groupId: Option<string>, onDisk: bool) returns (status: int)
      requires !Reserved(filename)
      modifies this
      ensures Outcome(status, State()) == SetFileGroupOutcome(old(State()), filename, groupId, onDisk)
    {
      if Protected(filename) {
        return 403;
      }
      var entry: FileEntry;
      if filename in files {
        entry := files[filename];
      } else if onDisk {
        entry := FileEntry("", None, Some(RootId));
      } else {
        return 404;
      }
      var gid := StripOr(groupId, RootId);
      if gid != RootId && gid !in groups {
        return 400;
      }
      files := files[filename := entry.(groupId := Some(gid))];
      return 200;
    }

    /** `delete_file_api` as written (the removal from disk is left out). */
    method DeleteFile(filename: string, caller: Option<string>, isLocal: bool) returns (status: int)
      modifies this
      ensures Outcome(status, State()) == DeleteFileOutcome(old(State()), filename, caller, isLocal)
    {
      if Protected(filename) {
        return 403;
      }
      if filename == GroupsKey {
        if "uploader" in groups && !isLocal {
          return 403;
        }
        groups := RootOnly();
        return 200;
      }
      if filename == TextsKey {
        if "uploader" in texts && !isLocal {
          return 403;
        }
        texts := map[];
        return 200;
      }
      var owner := if filename in files then files[filename].uploader else "";
      if owner != "" && caller != Some(owner) && !isLocal {
        return 403;
      }
      files := files - {filename};
      return 200;
    }

    /** `delete_file_api` with the two tables refused like the metadata file. */
    method DeleteFileFixed(filename: string, caller: Option<string>, isLocal: bool) returns (status: int)
      modifies this
      ensures Outcome(status, State()) == DeleteFileOutcomeFixed(old(State()), filename, caller, isLocal)
    {
      if filename == GroupsKey || filename == TextsKey {
        return 403;
      }
      status := DeleteFile(filename, caller, isLocal);
    }

    /** `set_file_password`; `clear` is the DELETE method and `hashOfPwd` the hash of the new password. */
    method SetFilePassword(filename: string, caller: string, clear: bool, pwd: Option<string>, hashOfPwd: string,
                           isLocal: bool) returns (status: int)
      requires !Reserved(filename)
      modifies this
      ensures Outcome(status, State()) == SetPasswordOutcome(old(State()), filename, caller, clear, pwd, hashOfPwd, isLocal)
    {
      var owner := if filename in files then files[filename].uploader else "";
      if owner != "" && caller != owner && !isLocal {
        return 403;
      }
      if clear {
        if filename in files {
          files := files[filename := files[filename].(passwordHash := None)];
        }
        return 200;
      }
      if pwd.None? || pwd.value == "" {
        return 400;
      }
      if filename !in files {
        files := files[filename := FileEntry(caller, None, None)];
      }
      files := files[filename := files[filename].(passwordHash := Some(hashOfPwd))];
      return 200;
    }

    /** `text_item_api` DELETE. */
    method DeleteText(tid: string, id: Option<string>, name: Option<string>, isLocal: bool) returns (status: int)
      modifies this
      ensures Outcome(status, State()) == DeleteTextOutcome(old(State()), tid, id, name, isLocal)
    {
      if tid !in texts {
        return 404;
      }
      var entry := texts[tid];
      var ownerId := OrEmpty(entry.uploaderId);
      if !isLocal {
        if ownerId != "" {
          if OrEmpty(id) != ownerId {
            return 403;
          }
        } else if entry.uploader != "" {
          if OrEmpty(name) != entry.uploader {
            return 403;
          }
        }
      }
      texts := texts - {tid};
      return 200;
    }
  }
}
