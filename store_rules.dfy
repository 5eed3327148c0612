/**
 * What each metadata route of app.py does to the dictionary, as a function
 * from the loaded dictionary and the request to the status code and the
 * dictionary it saves (the loaded one, unchanged, when it saves nothing).
 * `isLocal` stands for `_is_local_request()`; uuids, clocks, the client's
 * address and password hashes are inputs.
 */
module StoreRules {
  import opened Wrappers
  import opened Text
  import opened StoreData
  import opened ParentWalk

  /** A route's status code and the dictionary it leaves behind. */
  datatype Outcome = Outcome(status: int, store: Store)

  /** `x or ''` for an optional request value. */
  function OrEmpty(v: Option<string>): string {
    if v.Some? then v.value else ""
  }

  // ---------------------------------------------------------------- loading

  /** The group table after `_ensure_groups`: the loaded table, or the root-only one when there was none. */
  function LoadedGroups(loaded: Option<map<string, Group>>): map<string, Group> {
    if loaded.Some? then loaded.value else RootOnly()
  }

  /** `v.setdefault('group_id', 'root')`. */
  function DefaultGroup(e: FileEntry): FileEntry {
    e.(groupId := Some(e.groupId.GetOr(RootId)))
  }

  /** The file entries after `_ensure_groups`; `__debug__` is skipped. */
  function DefaultedFiles(files: map<string, FileEntry>): map<string, FileEntry> {
    map k | k in files :: if k == DebugKey then files[k] else DefaultGroup(files[k])
  }

  /** `load_metadata`: the loaded dictionary after `_ensure_groups`. */
  function Loaded(loaded: Option<map<string, Group>>, files: map<string, FileEntry>, texts: map<string, TextEntry>): Store {
    Store(LoadedGroups(loaded), DefaultedFiles(files), texts)
  }

  /**
   * After loading, a group table exists (holding `root` when it was
   * created), every file entry but `__debug__` has a group, a stored group
   * is kept, and nothing else changes.
   */
  lemma LoadedDefaults(loaded: Option<map<string, Group>>, files: map<string, FileEntry>, texts: map<string, TextEntry>)
    ensures var s := Loaded(loaded, files, texts);
      (loaded.None? ==> s.groups == RootOnly() && RootId in s.groups)
      && (loaded.Some? ==> s.groups == loaded.value)
      && s.files.Keys == files.Keys && s.texts == texts
      && (forall k :: k in files && k != DebugKey ==> s.files[k].groupId.Some?)
      && (forall k :: k in files && files[k].groupId.Some? ==> s.files[k].groupId == files[k].groupId)
      && (forall k :: k in files && files[k].groupId.None? && k != DebugKey ==> s.files[k].groupId == Some(RootId))
      && (forall k :: k in files ==> s.files[k].uploader == files[k].uploader && s.files[k].passwordHash == files[k].passwordHash)
  {
  }

  /** Loading what was loaded changes nothing: `_ensure_groups` is idempotent. */
  lemma LoadIdempotent(loaded: Option<map<string, Group>>, files: map<string, FileEntry>, texts: map<string, TextEntry>)
    ensures var s := Loaded(loaded, files, texts);
      Loaded(Some(s.groups), s.files, s.texts) == s
  {
    var s := Loaded(loaded, files, texts);
    assert DefaultedFiles(s.files) == s.files;
  }

  // ---------------------------------------------------------------- create

  /** `api_groups` POST: a blank name is refused (400), then a remote caller when remote creation is off (403). */
  function CreateOutcome(s: Store, name: string, parent: Option<string>, isLocal: bool, allowRemote: bool,
                         gid: string, createdBy: string): Outcome
  {
    var n := PyStrip(name);
    var p := StripOr(parent, RootId);
    if n == [] then Outcome(400, s)
    else if !isLocal && !allowRemote then Outcome(403, s)
    else Outcome(201, s.(groups := s.groups[gid := Group(n, Some(p), createdBy, false, false)]))
  }

  /**
   * Creation answers 400 exactly for a blank name and 403 exactly for a
   * remote caller when remote creation is off; a refused creation changes
   * nothing.
   */
  lemma CreateStatus(s: Store, name: string, parent: Option<string>, isLocal: bool, allowRemote: bool,
                     gid: string, createdBy: string)
    ensures var o := CreateOutcome(s, name, parent, isLocal, allowRemote, gid, createdBy);
      (o.status == 400 <==> PyStrip(name) == [])
      && (o.status == 403 <==> PyStrip(name) != [] && !isLocal && !allowRemote)
      && (o.status == 201 || o.store == s)
  {
  }

  /**
   * A created group is one new row `gid` holding the stripped name and the
   * stripped parent (`root` when missing or blank; it need not exist), not
   * hidden and not pinned; no other row, file or text changes.
   */
  lemma CreateAddsOneRow(s: Store, name: string, parent: Option<string>, isLocal: bool, allowRemote: bool,
                         gid: string, createdBy: string)
    requires CreateOutcome(s, name, parent, isLocal, allowRemote, gid, createdBy).status == 201
    ensures var t := CreateOutcome(s, name, parent, isLocal, allowRemote, gid, createdBy).store;
      t.files == s.files && t.texts == s.texts
      && t.groups.Keys == s.groups.Keys + {gid}
      && (forall k :: k in s.groups && k != gid ==> t.groups[k] == s.groups[k])
      && t.groups[gid].name == PyStrip(name)
      && (parent.None? || PyStrip(parent.value) == [] ==> t.groups[gid].parentId == Some(RootId))
      && (parent.Some? && PyStrip(parent.value) != [] ==> t.groups[gid].parentId == Some(PyStrip(parent.value)))
      && !t.groups[gid].hidden && !t.groups[gid].isPinned
  {
    var row := Group(PyStrip(name), Some(StripOr(parent, RootId)), createdBy, false, false);
    assert CreateOutcome(s, name, parent, isLocal, allowRemote, gid, createdBy).store
      == s.(groups := s.groups[gid := row]);
  }

  /** A created group with a fresh id, under any other parent, keeps the table acyclic. */
  lemma CreateKeepsAcyclicStore(s: Store, name: string, parent: Option<string>, isLocal: bool, allowRemote: bool,
                                gid: string, createdBy: string)
    requires Acyclic(s.groups) && gid !in s.groups && !Stops(Some(gid))
    requires forall x :: x in s.groups ==> s.groups[x].parentId != Some(gid)
    requires StripOr(parent, RootId) != gid
    ensures Acyclic(CreateOutcome(s, name, parent, isLocal, allowRemote, gid, createdBy).store.groups)
  {
    var o := CreateOutcome(s, name, parent, isLocal, allowRemote, gid, createdBy);
    if o.status == 201 {
      CreateKeepsAcyclic(s.groups, gid, o.store.groups[gid]);
    }
  }

  // ---------------------------------------------------------------- update

  /** The new parent is refused: neither `root` nor a group, the group itself, or its chain reaches the group. */
  predicate ParentRefused(g: map<string, Group>, gid: string, p: string) {
    (p != RootId && p !in g) || p == gid || Hits(g, Some(p), gid, {})
  }

  /** `api_group_update`: 403, 404, blank name 400, refused parent 400, else the given fields are set. */
  function UpdateOutcome(s: Store, gid: string, name: Option<string>, parent: Option<string>, pinned: Option<bool>,
                         isLocal: bool): Outcome
  {
    if !isLocal then Outcome(403, s)
    else if gid !in s.groups then Outcome(404, s)
    else if name.Some? && PyStrip(name.value) == [] then Outcome(400, s)
    else if parent.Some? && ParentRefused(s.groups, gid, PyStrip(parent.value)) then Outcome(400, s)
    else
      var g0 := s.groups[gid];
      var g1 := if name.Some? then g0.(name := PyStrip(name.value)) else g0;
      var g2 := if parent.Some? then g1.(parentId := Some(PyStrip(parent.value))) else g1;
      var g3 := if pinned.Some? then g2.(isPinned := pinned.value) else g2;
      Outcome(200, s.(groups := s.groups[gid := g3]))
  }

  /**
   * Update answers 403 exactly for a remote caller, then 404 exactly for an
   * unknown id, then 400 exactly for a blank name or a refused parent, in
   * that order; every other update succeeds, and a refusal changes nothing.
   */
  lemma UpdateStatus(s: Store, gid: string, name: Option<string>, parent: Option<string>, pinned: Option<bool>,
                     isLocal: bool)
    ensures var o := UpdateOutcome(s, gid, name, parent, pinned, isLocal);
      (o.status == 403 <==> !isLocal)
      && (o.status == 404 <==> isLocal && gid !in s.groups)
      && (o.status == 400 <==>
            isLocal && gid in s.groups
            && ((name.Some? && PyStrip(name.value) == [])
                || (parent.Some? && ParentRefused(s.groups, gid, PyStrip(parent.value)))))
      && (o.status == 200 <==>
            isLocal && gid in s.groups
            && (name.None? || PyStrip(name.value) != [])
            && (parent.None? || !ParentRefused(s.groups, gid, PyStrip(parent.value))))
      && (o.status == 200 || o.store == s)
  {
  }

  /**
   * An accepted update sets, on row `gid`, the stripped name when one is
   * given, the stripped parent when one is given, and the pin flag when one
   * is given; every other field of the row keeps its value.
   */
  lemma UpdateSetsRow(s: Store, gid: string, name: Option<string>, parent: Option<string>, pinned: Option<bool>,
                      isLocal: bool)
    requires UpdateOutcome(s, gid, name, parent, pinned, isLocal).status == 200
    ensures var row := UpdateOutcome(s, gid, name, parent, pinned, isLocal).store.groups[gid];
      var g0 := s.groups[gid];
      gid in s.groups
      && row.name == (if name.Some? then PyStrip(name.value) else g0.name)
      && row.parentId == (if parent.Some? then Some(PyStrip(parent.value)) else g0.parentId)
      && row.isPinned == (if pinned.Some? then pinned.value else g0.isPinned)
      && row == g0.(name := row.name, parentId := row.parentId, isPinned := row.isPinned)
      && (name.Some? ==> row.name != [])
      && (parent.Some? ==> row.parentId.value == RootId || row.parentId.value in s.groups)
      && (parent.Some? ==> row.parentId.value != gid)
  {
  }

  /** An update that is not refused touches the row `gid` only; a refused one changes nothing. */
  lemma UpdateTouchesOneRow(s: Store, gid: string, name: Option<string>, parent: Option<string>, pinned: Option<bool>,
                            isLocal: bool)
    ensures var o := UpdateOutcome(s, gid, name, parent, pinned, isLocal);
      (o.status != 200 ==> o.store == s)
      && (o.status == 200 ==>
            gid in s.groups && o.store.files == s.files && o.store.texts == s.texts
            && o.store.groups.Keys == s.groups.Keys
            && (forall k :: k in s.groups && k != gid ==> o.store.groups[k] == s.groups[k])
            && o.store.groups[gid].hidden == s.groups[gid].hidden
            && o.store.groups[gid].createdBy == s.groups[gid].createdBy)
  {
  }

  /** Update keeps an acyclic table acyclic. */
  lemma UpdateKeepsAcyclicStore(s: Store, gid: string, name: Option<string>, parent: Option<string>, pinned: Option<bool>,
                                isLocal: bool)
    requires Acyclic(s.groups)
    ensures Acyclic(UpdateOutcome(s, gid, name, parent, pinned, isLocal).store.groups)
  {
    var o := UpdateOutcome(s, gid, name, parent, pinned, isLocal);
    if o.status == 200 {
      var g, h := s.groups, o.store.groups;
      if parent.Some? {
        var p := PyStrip(parent.value);
        UpdateKeepsAcyclic(g, gid, p);
        var sp := SetParent(g, gid, p);
        forall k | k in h ensures Ends(h, Some(k), {}) {
          SameLinks(sp, h, Some(k), {});
        }
      } else {
        forall k | k in h ensures Ends(h, Some(k), {}) {
          SameLinks(g, h, Some(k), {});
        }
      }
    }
  }

  /**
   * For an existing group of an acyclic table and a new parent (after
   * stripping) that is `root` or another group, the cycle check refuses the
   * parent exactly when setting it would put the group on a cycle.
   */
  lemma UpdateRefusesExactlyCycles(s: Store, gid: string, p: string, pinned: Option<bool>)
    requires Acyclic(s.groups) && gid in s.groups
    requires (PyStrip(p) == RootId || PyStrip(p) in s.groups) && PyStrip(p) != gid
    ensures UpdateOutcome(s, gid, None, Some(p), pinned, true).status == 400
            <==> !Acyclic(SetParent(s.groups, gid, PyStrip(p)))
  {
    var g := s.groups;
    var q := PyStrip(p);
    if Hits(g, Some(q), gid, {}) {
      UpdateMakesCycle(g, gid, q);
    } else {
      UpdateKeepsAcyclic(g, gid, q);
    }
  }

  // ---------------------------------------------------------------- delete

  /** An acyclic table has no group that is its own parent. */
  lemma NoSelfParent(g: map<string, Group>, k: string)
    requires Acyclic(g) && k in g && !Stops(Some(k))
    ensures g[k].parentId != Some(k)
  {
    assert Ends(g, Some(k), {});
    assert {} + {k} == {k};
    assert Ends(g, Next(g, k), {k});
  }

  /** The `mode` of `api_group_delete` selects removing the group's files. */
  predicate WithFiles(mode: Option<string>) {
    mode.Some? && PyStrip(mode.value) == "delete_with_files"
  }

  /** `delete_only`: entries in `gid` (not `__debug__`) move to `to`. */
  function MovedFiles(files: map<string, FileEntry>, gid: string, to: string): map<string, FileEntry> {
    map k | k in files :: if k != DebugKey && files[k].groupId == Some(gid) then files[k].(groupId := Some(to)) else files[k]
  }

  /** `delete_with_files`: entries in `gid` (not `__debug__`) leave the dictionary. */
  function DroppedFiles(files: map<string, FileEntry>, gid: string): map<string, FileEntry> {
    map k | k in files && (k == DebugKey || files[k].groupId != Some(gid)) :: files[k]
  }

  /** `api_group_delete`: 403 for a remote caller, 404 for `root` or an unknown id, else the group goes. */
  function DeleteGroupOutcome(s: Store, gid: string, mode: Option<string>, isLocal: bool): Outcome {
    if !isLocal then Outcome(403, s)
    else if gid !in s.groups || gid == RootId then Outcome(404, s)
    else
      var to := ParentOrRoot(s.groups[gid]);
      var files := if WithFiles(mode) then DroppedFiles(s.files, gid) else MovedFiles(s.files, gid, to);
      Outcome(200, Store(Reparented(s.groups, gid), files, s.texts))
  }

  /** Deletion answers 403 exactly for a remote caller and 404 exactly for `root` or an unknown id; a refusal changes nothing. */
  lemma DeleteGroupStatus(s: Store, gid: string, mode: Option<string>, isLocal: bool)
    ensures var o := DeleteGroupOutcome(s, gid, mode, isLocal);
      (o.status == 403 <==> !isLocal)
      && (o.status == 404 <==> isLocal && (gid !in s.groups || gid == RootId))
      && (o.status == 200 || o.store == s)
  {
  }

  /**
   * A deleted group's row goes; its child groups take its parent (`root`
   * when it has none) and no other row changes; the texts stay.
   */
  lemma DeleteGroupReparents(s: Store, gid: string, mode: Option<string>, isLocal: bool)
    requires DeleteGroupOutcome(s, gid, mode, isLocal).status == 200
    ensures var t := DeleteGroupOutcome(s, gid, mode, isLocal).store;
      gid in s.groups && t.groups.Keys == s.groups.Keys - {gid} && t.texts == s.texts
      && (forall k :: k in t.groups && s.groups[k].parentId == Some(gid) ==>
            t.groups[k] == s.groups[k].(parentId := Some(ParentOrRoot(s.groups[gid]))))
      && (forall k :: k in t.groups && s.groups[k].parentId != Some(gid) ==> t.groups[k] == s.groups[k])
  {
  }

  /**
   * In `delete_only` mode the group's files move to the group's parent (or
   * `root`); with `delete_with_files` they leave the dictionary. No other
   * entry changes.
   */
  lemma DeleteGroupFiles(s: Store, gid: string, mode: Option<string>, isLocal: bool)
    requires DeleteGroupOutcome(s, gid, mode, isLocal).status == 200
    ensures var t := DeleteGroupOutcome(s, gid, mode, isLocal).store;
      gid in s.groups
      && (forall k :: k in s.files && (k == DebugKey || s.files[k].groupId != Some(gid)) ==>
            k in t.files && t.files[k] == s.files[k])
      && (!WithFiles(mode) ==>
            t.files.Keys == s.files.Keys
            && forall k :: k in s.files && k != DebugKey && s.files[k].groupId == Some(gid) ==>
                 t.files[k] == s.files[k].(groupId := Some(ParentOrRoot(s.groups[gid]))))
      && (WithFiles(mode) ==>
            forall k :: k in s.files ==> (k in t.files <==> k == DebugKey || s.files[k].groupId != Some(gid)))
  {
  }

  /** After deleting a group of an acyclic table, no group and no file entry names it. */
  lemma DeleteLeavesNoReference(s: Store, gid: string, mode: Option<string>, isLocal: bool)
    requires Acyclic(s.groups) && gid != ""
    requires DeleteGroupOutcome(s, gid, mode, isLocal).status == 200
    ensures var t := DeleteGroupOutcome(s, gid, mode, isLocal).store;
      gid !in t.groups
      && (forall k :: k in t.groups ==> t.groups[k].parentId != Some(gid))
      && (forall k :: k in t.files && k != DebugKey ==> t.files[k].groupId != Some(gid))
  {
    NoSelfParent(s.groups, gid);
    assert ParentOrRoot(s.groups[gid]) != gid;
  }

  /** Deleting a group keeps an acyclic table acyclic. */
  lemma DeleteKeepsAcyclicStore(s: Store, gid: string, mode: Option<string>, isLocal: bool)
    requires Acyclic(s.groups) && gid != ""
    ensures Acyclic(DeleteGroupOutcome(s, gid, mode, isLocal).store.groups)
  {
    if DeleteGroupOutcome(s, gid, mode, isLocal).status == 200 {
      DeleteKeepsAcyclic(s.groups, gid);
    }
  }

  // ---------------------------------------------------------------- listing

  /** One item of the `api_groups` GET answer; `children` as a set, the modification time left out. */
  datatype Listed = Listed(name: string, parentId: Option<string>, children: set<string>, hidden: bool, isPinned: bool)

  /** The ids a caller sees: all for a local caller, the ones not hidden otherwise. */
  function Visible(g: map<string, Group>, isLocal: bool): set<string> {
    if isLocal then g.Keys else set k | k in g && !g[k].hidden
  }

  /** The children bucket of a visible group: its non-empty parent when visible, else the top bucket (`None`). */
  function Bucket(g: map<string, Group>, vis: set<string>, k: string): Option<string>
    requires k in g
  {
    var pid := g[k].parentId;
    if pid.None? || pid.value == "" || pid.value !in vis then None else pid
  }

  /** The reported `parent_id`: kept when missing or visible, else `None`. */
  function ShownParent(g: map<string, Group>, vis: set<string>, k: string): Option<string>
    requires k in g
  {
    var pid := g[k].parentId;
    if pid.None? || pid.value in vis then pid else None
  }

  /** `api_groups` GET: one item per visible group. */
  function Listing(g: map<string, Group>, isLocal: bool): map<string, Listed> {
    var vis := Visible(g, isLocal);
    map k | k in vis :: Listed(g[k].name, ShownParent(g, vis, k),
                              (set c | c in vis && Bucket(g, vis, c) == Some(k)), g[k].hidden, g[k].isPinned)
  }

  /**
   * A local caller sees every group; a remote caller sees exactly the groups
   * not hidden. Each item carries its group's name and flags.
   */
  lemma ListingShows(g: map<string, Group>, isLocal: bool)
    ensures var l := Listing(g, isLocal);
      (isLocal ==> l.Keys == g.Keys)
      && (!isLocal ==> forall k :: k in l <==> k in g && !g[k].hidden)
      && (forall k :: k in l ==>
            k in g && l[k].name == g[k].name && l[k].hidden == g[k].hidden && l[k].isPinned == g[k].isPinned)
  {
  }

  /**
   * Nothing hidden leaks to a remote caller: a reported parent is itself
   * listed, a group whose parent is not listed is reported with no parent,
   * and every child id is listed.
   */
  lemma ListingClosed(g: map<string, Group>, isLocal: bool)
    ensures var l := Listing(g, isLocal);
      (forall k :: k in l && l[k].parentId.Some? ==> l[k].parentId.value in l && l[k].parentId == g[k].parentId)
      && (forall k :: k in l && g[k].parentId.Some? && g[k].parentId.value !in l ==> l[k].parentId.None?)
      && (forall k, c :: k in l && c in l[k].children ==> c in l)
  {
  }

  /** For a non-empty id, the children list of `p` holds exactly the listed groups reported under `p`. */
  lemma ListingChildrenAgree(g: map<string, Group>, isLocal: bool, p: string, c: string)
    requires p in Listing(g, isLocal) && p != ""
    ensures var l := Listing(g, isLocal);
      c in l[p].children <==> c in l && l[c].parentId == Some(p)
  {
  }

  // ---------------------------------------------------------------- files

  /** The metadata file itself, compared case-insensitively (ASCII case only). */
  predicate Protected(filename: string) {
    AsciiLower(filename) == "metadata.json"
  }

  /** The two dictionary keys that hold tables rather than file entries. */
  predicate Reserved(filename: string) {
    filename == GroupsKey || filename == TextsKey
  }

  /** `api_set_file_group`: 403 for the metadata file, 404 for a file known neither to the dictionary nor to the disk, 400 for an unknown group. */
  function SetFileGroupOutcome(s: Store, filename: string, groupId: Option<string>, onDisk: bool): Outcome
    requires !Reserved(filename)
  {
    if Protected(filename) then Outcome(403, s)
    else if filename !in s.files && !onDisk then Outcome(404, s)
    else
      var gid := StripOr(groupId, RootId);
      if gid != RootId && gid !in s.groups then Outcome(400, s)
      else
        var e := if filename in s.files then s.files[filename] else FileEntry("", None, Some(RootId));
        Outcome(200, s.(files := s.files[filename := e.(groupId := Some(gid))]))
  }

  /**
   * Moving a file answers 403, 404 and 400 exactly in their cases, in that
   * order; a move puts the entry (a fresh ownerless one for a file only on
   * disk) into `root` or an existing group and touches nothing else.
   */
  lemma SetFileGroupRules(s: Store, filename: string, groupId: Option<string>, onDisk: bool)
    requires !Reserved(filename)
    ensures var o := SetFileGroupOutcome(s, filename, groupId, onDisk);
      var gid := StripOr(groupId, RootId);
      (o.status == 403 <==> Protected(filename))
      && (o.status == 404 <==> !Protected(filename) && filename !in s.files && !onDisk)
      && (o.status == 400 <==> !Protected(filename) && (filename in s.files || onDisk) && gid != RootId && gid !in s.groups)
      && (o.status != 200 ==> o.store == s)
      && (o.status == 200 ==>
            o.store.groups == s.groups && o.store.texts == s.texts
            && o.store.files.Keys == s.files.Keys + {filename}
            && (forall k :: k in s.files && k != filename ==> o.store.files[k] == s.files[k])
            && o.store.files[filename].groupId == Some(gid) && (gid == RootId || gid in s.groups)
            && (filename in s.files ==>
                  o.store.files[filename].uploader == s.files[filename].uploader
                  && o.store.files[filename].passwordHash == s.files[filename].passwordHash)
            && (filename !in s.files ==> o.store.files[filename].uploader == "" && o.store.files[filename].passwordHash.None?))
  {
  }

  /** The ownership rule of `delete_file_api` and `set_file_password`: no stored owner, the owner asking, or a local caller. */
  predicate FileOwnerAllows(owner: string, caller: Option<string>, isLocal: bool) {
    owner == "" || caller == Some(owner) || isLocal
  }

  /** The stored uploader of a file entry, `''` when there is none. */
  function OwnerOf(s: Store, filename: string): string {
    if filename in s.files then s.files[filename].uploader else ""
  }

  /**
   * `delete_file_api` as written. The two tables are dictionary keys like
   * any file: their "owner" is the group or text whose id is `uploader`,
   * so when there is none anyone may delete the table, which the next load
   * sees as an empty text table or a root-only group table.
   */
  function DeleteFileOutcome(s: Store, filename: string, caller: Option<string>, isLocal: bool): Outcome {
    if Protected(filename) then Outcome(403, s)
    else if filename == GroupsKey then
      if "uploader" in s.groups && !isLocal then Outcome(403, s) else Outcome(200, s.(groups := RootOnly()))
    else if filename == TextsKey then
      if "uploader" in s.texts && !isLocal then Outcome(403, s) else Outcome(200, s.(texts := map[]))
    else if !FileOwnerAllows(OwnerOf(s, filename), caller, isLocal) then Outcome(403, s)
    else Outcome(200, s.(files := s.files - {filename}))
  }

  /** `delete_file_api` with the two tables protected like the metadata file. */
  function DeleteFileOutcomeFixed(s: Store, filename: string, caller: Option<string>, isLocal: bool): Outcome {
    if Reserved(filename) then Outcome(403, s) else DeleteFileOutcome(s, filename, caller, isLocal)
  }

  /**
   * For a file entry, deletion is refused (403) exactly for the metadata
   * file or when the stored owner is set, differs from the caller and the
   * caller is remote; otherwise the entry (if any) goes and nothing else changes.
   */
  lemma DeleteFileOwnership(s: Store, filename: string, caller: Option<string>, isLocal: bool)
    requires !Reserved(filename)
    ensures var o := DeleteFileOutcome(s, filename, caller, isLocal);
      (o.status == 403 <==> Protected(filename) || (OwnerOf(s, filename) != "" && caller != Some(OwnerOf(s, filename)) && !isLocal))
      && (o.status != 403 ==> o.status == 200 && o.store == s.(files := s.files - {filename}))
      && (o.status == 403 ==> o.store == s)
  {
  }

  /** As written, a remote caller with no ownership at all empties the group table. */
  lemma RemoteCallerWipesGroups(s: Store, caller: Option<string>)
    requires "uploader" !in s.groups
    ensures DeleteFileOutcome(s, GroupsKey, caller, false) == Outcome(200, s.(groups := RootOnly()))
  {
    assert !Protected(GroupsKey) by {
      assert GroupsKey[0] == '_' && AsciiLower(GroupsKey)[0] == '_';
    }
  }

  /** As written, a remote caller with no ownership at all empties the text table. */
  lemma RemoteCallerWipesTexts(s: Store, caller: Option<string>)
    requires "uploader" !in s.texts
    ensures DeleteFileOutcome(s, TextsKey, caller, false) == Outcome(200, s.(texts := map[]))
  {
    assert !Protected(TextsKey) by {
      assert TextsKey[0] == '_' && AsciiLower(TextsKey)[0] == '_';
    }
    assert TextsKey != GroupsKey by {
      assert TextsKey[2] != GroupsKey[2];
    }
  }

  /** With the tables protected, a deletion never touches the group or text table, and files are as before. */
  lemma FixedKeepsTables(s: Store, filename: string, caller: Option<string>, isLocal: bool)
    ensures var o := DeleteFileOutcomeFixed(s, filename, caller, isLocal);
      o.store.groups == s.groups && o.store.texts == s.texts
      && (!Reserved(filename) ==> o == DeleteFileOutcome(s, filename, caller, isLocal))
  {
  }

  /**
   * `set_file_password` (POST sets, `clear` for DELETE): the ownership rule
   * (403), then a cleared hash, a missing password (400), or the new hash
   * `hashOfPwd`; a new entry belongs to the caller.
   */
  function SetPasswordOutcome(s: Store, filename: string, caller: string, clear: bool, pwd: Option<string>,
                              hashOfPwd: string, isLocal: bool): Outcome
    requires !Reserved(filename)
  {
    if !FileOwnerAllows(OwnerOf(s, filename), Some(caller), isLocal) then Outcome(403, s)
    else if clear then
      if filename in s.files then Outcome(200, s.(files := s.files[filename := s.files[filename].(passwordHash := None)]))
      else Outcome(200, s)
    else if pwd.None? || pwd.value == "" then Outcome(400, s)
    else
      var e := if filename in s.files then s.files[filename] else FileEntry(caller, None, None);
      Outcome(200, s.(files := s.files[filename := e.(passwordHash := Some(hashOfPwd))]))
  }

  /**
   * A password change is refused exactly under the file ownership rule,
   * then for a missing password; when it goes through only that entry's
   * hash changes (a new entry is the caller's, with no group).
   */
  lemma SetPasswordRules(s: Store, filename: string, caller: string, clear: bool, pwd: Option<string>,
                         hashOfPwd: string, isLocal: bool)
    requires !Reserved(filename)
    ensures var o := SetPasswordOutcome(s, filename, caller, clear, pwd, hashOfPwd, isLocal);
      (o.status == 403 <==> !FileOwnerAllows(OwnerOf(s, filename), Some(caller), isLocal))
      && (o.status == 400 <==> FileOwnerAllows(OwnerOf(s, filename), Some(caller), isLocal) && !clear && (pwd.None? || pwd.value == ""))
      && (o.status != 200 ==> o.store == s)
      && (o.status == 200 ==>
            o.store.groups == s.groups && o.store.texts == s.texts
            && (forall k :: k != filename ==> (k in o.store.files <==> k in s.files))
            && (forall k :: k in s.files && k != filename ==> o.store.files[k] == s.files[k])
            && (clear ==> filename !in s.files ==> o.store == s)
            && (clear && filename in s.files ==> o.store.files[filename] == s.files[filename].(passwordHash := None))
            && (!clear ==> filename in o.store.files && o.store.files[filename].passwordHash == Some(hashOfPwd))
            && (!clear && filename in s.files ==> o.store.files[filename] == s.files[filename].(passwordHash := Some(hashOfPwd)))
            && (!clear && filename !in s.files ==> o.store.files[filename] == FileEntry(caller, Some(hashOfPwd), None)))
  {
  }

  // ---------------------------------------------------------------- texts

  /**
   * The ownership rule of `text_item_api` DELETE: a local caller, or, when
   * the text carries an uploader id, the same id, and otherwise an empty
   * stored name or the same name.
   */
  predicate TextOwnerAllows(e: TextEntry, id: Option<string>, name: Option<string>, isLocal: bool) {
    var ownerId := OrEmpty(e.uploaderId);
    isLocal || (if ownerId != "" then OrEmpty(id) == ownerId else e.uploader == "" || OrEmpty(name) == e.uploader)
  }

  /** `text_item_api` DELETE: 404 for an unknown text, 403 under the ownership rule, else the text goes. */
  function DeleteTextOutcome(s: Store, tid: string, id: Option<string>, name: Option<string>, isLocal: bool): Outcome {
    if tid !in s.texts then Outcome(404, s)
    else if !TextOwnerAllows(s.texts[tid], id, name, isLocal) then Outcome(403, s)
    else Outcome(200, s.(texts := s.texts - {tid}))
  }

  /**
   * A stored uploader id takes precedence: the caller's name then plays no
   * part, and a matching id is enough; without one the name decides.
   */
  lemma TextIdTakesPrecedence(e: TextEntry, id: Option<string>, name1: Option<string>, name2: Option<string>)
    ensures e.uploaderId.Some? && e.uploaderId.value != "" ==>
              (TextOwnerAllows(e, id, name1, false) <==> id == e.uploaderId)
              && (TextOwnerAllows(e, id, name1, false) <==> TextOwnerAllows(e, id, name2, false))
    ensures (e.uploaderId.None? || e.uploaderId.value == "") ==>
              (TextOwnerAllows(e, id, name1, false) <==> e.uploader == "" || OrEmpty(name1) == e.uploader)
  {
  }

  /** Text deletion answers 404, then 403, exactly in their cases, and removes only that text. */
  lemma DeleteTextRules(s: Store, tid: string, id: Option<string>, name: Option<string>, isLocal: bool)
    ensures var o := DeleteTextOutcome(s, tid, id, name, isLocal);
      (o.status == 404 <==> tid !in s.texts)
      && (o.status == 403 <==> tid in s.texts && !TextOwnerAllows(s.texts[tid], id, name, isLocal))
      && (o.status != 200 ==> o.store == s)
      && (o.status == 200 ==> o.store.groups == s.groups && o.store.files == s.files
                              && o.store.texts.Keys == s.texts.Keys - {tid}
                              && forall k :: k in o.store.texts ==> o.store.texts[k] == s.texts[k])
  {
  }
}
