/**
 * The records of the server's metadata dictionary (`metadata.json`): file
 * entries keyed by stored file name, the group table under `__groups__`
 * and the shared texts under `__texts__`. Modification times are not
 * modelled.
 */
module StoreData {
  import opened Wrappers

  const RootId: string := "root"
  const GroupsKey: string := "__groups__"
  const TextsKey: string := "__texts__"
  const DebugKey: string := "__debug__"

  /** One row of the group table; `hidden` and `isPinned` hold the truth value the handlers read. */
  datatype Group = Group(name: string, parentId: Option<string>, createdBy: string, hidden: bool, isPinned: bool)

  /** A file entry; `groupId == None` when the entry has no `group_id` key. */
  datatype FileEntry = FileEntry(uploader: string, passwordHash: Option<string>, groupId: Option<string>)

  /** A shared text; `uploaderId` is `None` when it was posted without one. */
  datatype TextEntry = TextEntry(content: string, uploader: string, uploaderId: Option<string>, passwordHash: Option<string>)

  /** The whole dictionary: the group table, the file entries (including `__debug__`) and the texts. */
  datatype Store = Store(groups: map<string, Group>, files: map<string, FileEntry>, texts: map<string, TextEntry>)

  /** The file-entry keys never collide with the two tables. */
  predicate WellKeyed(s: Store) {
    GroupsKey !in s.files && TextsKey !in s.files
  }

  /** The table `_ensure_groups` creates when there is none: the root group alone, named "根分组" and made by `system`. */
  function RootOnly(): (t: map<string, Group>)
    ensures t.Keys == {RootId} && t[RootId].parentId.None?
  {
    map[RootId := Group("\U{6839}\U{5206}\U{7ec4}", None, "system", false, false)]
  }
}
