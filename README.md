# QuickSend core, modelled in Dafny

QuickSend is a LAN file- and text-sharing server (Flask) with a React front
end and a small analytics edge function (Deno). This project models and
proves properties of three pieces of it.

- **Group tree (front end, `Home.tsx`).**
  - `buildGroupTree` turns the flat group list into one rooted tree. It synthesises `root` when needed, attaches orphans to `root`, sorts siblings pinned-first (stably) and sets depths.
  - `flattenTree` lists the tree in pre-order for the parent pickers.
  - Also covered: the 16-bytes-per-row hex dump of the first 4 KB of a file, and the extension-based preview classification.
- **Metadata store (back end, `app.py`).**
  - The routes that read and update the loaded metadata dictionary: `_ensure_groups` defaulting, and group create, update (with its parent-chain cycle walk), delete (reparenting child groups and files) and listing.
  - Also: moving a file into a group, and the ownership checks on deleting files and texts and on changing a file password.
  - Beside these sit the LAN-address choice of `get_local_ip`, the `Host` parsing of `api_ip`, and upload file-name sanitisation in `handle_files`.
- **Analytics ingest (`index.ts`).** The request-to-reply pipeline:
  - a method gate, then anon-key authentication, then JSON parsing;
  - event and id validation, then geo-country injection;
  - the props size cap, then one insert.

Modules:

- `Wrappers` (`Option`).
- `Text`: Python/JavaScript whitespace stripping, ASCII case, decimals, Python `int()`.
- `GroupTree` and `TreeFlatten`.
- `FilePreview`.
- `LanAddress`.
- `UploadName`.
- `StoreData` (records of the metadata dictionary).
- `ParentWalk` (the parent-chain walk and acyclicity).
- `StoreRules`: one function per route, from the loaded dictionary and the request to the status code and the dictionary left behind.
- `MetadataStore`: class `Metadata`, whose methods update the dictionary's tables in place and are proved equal to those functions.
- `AnalyticsIngest`.

Inputs in place of I/O:

- `_is_local_request()` is the flag `isLocal`.
- Fresh uuids, the clock (`ms`), the caller's address and password hashes are parameters.
- The file's presence on disk is `onDisk`.
- Socket probes and resolver answers are parameters of `GetLocalIp`.
- The ingest handler takes the environment, the serialised props size (`sizeOf`) and the insert's outcome as inputs.

Behaviour kept as the source has it:

- An unbracketed IPv6 host such as `::1` splits on `:` to the empty address.
- A file name without a dot is its own extension for the preview, so a file named `txt` previews as text.

## Model

| member | source | states |
|---|---|---|
| GroupTree.BuildGroupTree | quicksend/quicksend/quicksend/static/src/pages/Home.tsx:117-161 | with unique ids the result is one node, the built tree: root first, children attached, sorted and depth-stamped (`IsBuiltTree`) |
| GroupTree.IndexNodes | quicksend/quicksend/quicksend/static/src/pages/Home.tsx:120-128 | the first pass and root check give exactly the id lookup map with `root` ensured |
| GroupTree.Nodes | quicksend/quicksend/quicksend/static/src/pages/Home.tsx:120-128 | the lookup map always holds `root` and maps every id to a record with that id |
| GroupTree.IndexById | quicksend/quicksend/quicksend/static/src/pages/Home.tsx:120-122 | each id maps to an input record with that id |
| GroupTree.AttachChildren | quicksend/quicksend/quicksend/static/src/pages/Home.tsx:131-140 | after the attach loop each node's list is the in-order list of the non-root records whose parent (or `root`) is that node |
| GroupTree.AttachStep | quicksend/quicksend/quicksend/static/src/pages/Home.tsx:131-140 | one iteration of the attach loop extends exactly the target's list by the record |
| GroupTree.ChildrenOfSnoc | quicksend/quicksend/quicksend/static/src/pages/Home.tsx:131-140 | the attached list of a prefix grows by the next record only under its target |
| GroupTree.AttachedExactlyOnce | quicksend/quicksend/quicksend/static/src/pages/Home.tsx:131-140 | every non-root record is listed exactly once, under its parent if known and under `root` otherwise; a `root` record never is |
| GroupTree.SortChildren | quicksend/quicksend/quicksend/static/src/pages/Home.tsx:143-149 | every list is replaced by its pinned-first order |
| GroupTree.Pinned | quicksend/quicksend/quicksend/static/src/pages/Home.tsx:143-149 | every record kept is pinned |
| GroupTree.Unpinned | quicksend/quicksend/quicksend/static/src/pages/Home.tsx:143-149 | every record kept is unpinned |
| GroupTree.PinnedFirstSorts | quicksend/quicksend/quicksend/static/src/pages/Home.tsx:143-149 | pinned-first is a stable sort by the comparator and a permutation |
| GroupTree.StablePinSortUnique | quicksend/quicksend/quicksend/static/src/pages/Home.tsx:143-149 | any stable sort by that comparator equals pinned-first |
| GroupTree.SiblingsSorted | quicksend/quicksend/quicksend/static/src/pages/Home.tsx:131-149 | each node's children are its attached records, stably sorted pinned-first |
| GroupTree.SetDepth | quicksend/quicksend/quicksend/static/src/pages/Home.tsx:152-155 | the node built for a record at depth d conforms to the children map with depths d, d+1, … |
| GroupTree.SortedChildrenLinks | quicksend/quicksend/quicksend/static/src/pages/Home.tsx:131-149 | the sorted lists only hold known ids that are not `root`, which lets `setDepth` terminate |
| GroupTree.BuiltRoot | quicksend/quicksend/quicksend/static/src/pages/Home.tsx:126-128 | the root is the input's `root` record when present, else the synthetic `{id:'root', name:'root'}` |
| GroupTree.BuiltNodeShape | quicksend/quicksend/quicksend/static/src/pages/Home.tsx:131-158 | at every node the children are its stably sorted attached records, each one level deeper |
| GroupTree.BuiltDepth | quicksend/quicksend/quicksend/static/src/pages/Home.tsx:152-158 | a node's depth is the least number of parent steps from its id to `root` |
| GroupTree.SameIdSameDepth | quicksend/quicksend/quicksend/static/src/pages/Home.tsx:152-158 | two nodes with the same id have the same depth |
| GroupTree.SiblingIdsDistinct | quicksend/quicksend/quicksend/static/src/pages/Home.tsx:131-140 | the children of one node have distinct ids |
| GroupTree.ListedOnce | quicksend/quicksend/quicksend/static/src/pages/Home.tsx:131-140 | a record is listed at most once under a node |
| GroupTree.BuiltTreeCoverage | quicksend/quicksend/quicksend/static/src/pages/Home.tsx:121-140 | a known id is in the tree exactly when its parent chain reaches `root`; ids on a cycle are left out |
| GroupTree.ChildGroups | quicksend/quicksend/quicksend/static/src/pages/Home.tsx:112-115 | a node lists as many records as it has child nodes |
| TreeFlatten.Flatten | quicksend/quicksend/quicksend/static/src/pages/Home.tsx:163-172 | the pre-order flattening of a forest; proved by FlattenTree and RenderedListNamesEachGroupOnce |
| TreeFlatten.FlattenTree | quicksend/quicksend/quicksend/static/src/pages/Home.tsx:163-172 | the loop returns the pre-order flattening of the forest |
| TreeFlatten.RenderedListNamesEachGroupOnce | quicksend/quicksend/quicksend/static/src/pages/Home.tsx:163-172 | the flattened built tree lists exactly its nodes, each group id once |
| TreeFlatten.NoDupConcat | quicksend/quicksend/quicksend/static/src/pages/Home.tsx:168 | concatenating two duplicate-free lists with disjoint ids is duplicate-free |
| TreeFlatten.BelowIsDeeper | quicksend/quicksend/quicksend/static/src/pages/Home.tsx:152-158 | a node below a child of `s` is deeper than `s` |
| TreeFlatten.SiblingsApart | quicksend/quicksend/quicksend/static/src/pages/Home.tsx:131-158 | subtrees of two different children share no id |
| FilePreview.HexDumpRows | quicksend/quicksend/quicksend/static/src/pages/Home.tsx:1735-1751 | the rows of the hex view of the first 4096 bytes; proved by the row-shape lemmas and HexDump |
| FilePreview.HexDump | quicksend/quicksend/quicksend/static/src/pages/Home.tsx:1735-1751 | the row loop builds exactly the specified rows |
| FilePreview.RowCells | quicksend/quicksend/quicksend/static/src/pages/Home.tsx:1739-1745 | the inner loop yields exactly the hex and ASCII cells of the (up to) 16 bytes from `i` |
| FilePreview.RowCount | quicksend/quicksend/quicksend/static/src/pages/Home.tsx:1735-1738 | ceil(n/16) rows for the first min(n, 4096) bytes; bytes past 4 KB never matter |
| FilePreview.OffsetsReadBack | quicksend/quicksend/quicksend/static/src/pages/Home.tsx:1747 | each offset is 8 lowercase hex digits reading back as 16·k |
| FilePreview.CellsShowBytes | quicksend/quicksend/quicksend/static/src/pages/Home.tsx:1739-1749 | byte p shows in row p/16, column p%16 as 2 hex digits reading back as the byte; ASCII cell is the char for 32..126 else `.`; hex column 47 wide |
| FilePreview.ByteHexReadsBack | quicksend/quicksend/quicksend/static/src/pages/Home.tsx:1743 | a byte's hex cell is two hex digits reading back as the byte |
| FilePreview.AsciiCellShows | quicksend/quicksend/quicksend/static/src/pages/Home.tsx:1744 | printable bytes show as themselves, the rest as `.` |
| FilePreview.RowCell | quicksend/quicksend/quicksend/static/src/pages/Home.tsx:1741-1749 | column `col` of row `k` shows byte 16k+col |
| FilePreview.PaddedHexRoundTrip | quicksend/quicksend/quicksend/static/src/pages/Home.tsx:1743-1747 | zero-padded `toString(16)` reads back as the number |
| FilePreview.ToHex | quicksend/quicksend/quicksend/static/src/pages/Home.tsx:1743 | `toString(16)` is a non-empty string of hex digits |
| FilePreview.ByteHex | quicksend/quicksend/quicksend/static/src/pages/Home.tsx:1743 | a byte's cell is 2 characters |
| FilePreview.HexCells | quicksend/quicksend/quicksend/static/src/pages/Home.tsx:1739-1743 | one hex cell per byte |
| FilePreview.AsciiCells | quicksend/quicksend/quicksend/static/src/pages/Home.tsx:1740-1749 | one ASCII cell per byte |
| FilePreview.Extension | quicksend/quicksend/quicksend/static/src/pages/Home.tsx:832 | the lower-cased text after the last `.` of the name, the whole name when it has none |
| FilePreview.CanPreview | quicksend/quicksend/quicksend/static/src/pages/Home.tsx:832-843 | whether the detail view offers a preview; proved by CanPreviewIgnoresCase and TrailingDotNoPreview |
| FilePreview.CanPreviewIgnoresCase | quicksend/quicksend/quicksend/static/src/pages/Home.tsx:832-843 | previewability does not depend on the ASCII case of the name |
| FilePreview.TrailingDotNoPreview | quicksend/quicksend/quicksend/static/src/pages/Home.tsx:832-843 | a name ending in `.` has extension `''` and no preview |
| LanAddress.Classify | quicksend/quicksend/quicksend/app.py:157-176 | the class of one candidate address (dropped, 192, 10, 172, other); proved by Private172Range, NonNumeric172, Classify172 and Field172 |
| LanAddress.Choice | quicksend/quicksend/quicksend/app.py:155-186 | the first candidate of the best class present, else `127.0.0.1`; proved by ChoiceIsBest |
| LanAddress.PrioritizeCandidates | quicksend/quicksend/quicksend/app.py:155-186 | the bucket loop and priority pass return the specified choice |
| LanAddress.ChoiceIsBest | quicksend/quicksend/quicksend/app.py:155-186 | `127.0.0.1` exactly when every candidate is dropped; otherwise the first candidate of the best class present |
| LanAddress.InBucket | quicksend/quicksend/quicksend/app.py:157-176 | a bucket holds only candidates of its class |
| LanAddress.InBucketFirst | quicksend/quicksend/quicksend/app.py:155-181 | a class list is empty exactly when no candidate has that class; otherwise its head is the first such candidate |
| LanAddress.Private172Range | quicksend/quicksend/quicksend/app.py:166-170 | `172.<16..31>.…` is in the 172 class |
| LanAddress.NonNumeric172 | quicksend/quicksend/quicksend/app.py:166-174 | a non-integer second field puts `172.` in "other" |
| LanAddress.Classify172 | quicksend/quicksend/quicksend/app.py:166-174 | a `172.` address is classified by its second field alone |
| LanAddress.Field172 | quicksend/quicksend/quicksend/app.py:166-174 | a `172.<d>.…` address is classified by its second field `d` |
| LanAddress.GetLocalIp | quicksend/quicksend/quicksend/app.py:113-186 | env address, else a usable probe address, else the prioritised choice among resolver answers |
| LanAddress.Dedup | quicksend/quicksend/quicksend/app.py:136-141 | same members as the resolver answers, no repeats |
| LanAddress.PyOr | quicksend/quicksend/quicksend/app.py:116 | `a or b` is one of the two, and `a` whenever it is a non-empty string |
| LanAddress.SplitHost | quicksend/quicksend/quicksend/app.py:803-823 | the address and the optional port text of a Host value; proved by SplitHostPort, SplitBracketed and the round-trip lemmas |
| LanAddress.ParseHost | quicksend/quicksend/quicksend/app.py:803-823 | the address and the `int()` port of a Host value; proved by HostPortRoundTrip, BareHostRoundTrip, BracketedHostRoundTrip, BracketedBareRoundTrip and ReadPort |
| LanAddress.HostPortRoundTrip | quicksend/quicksend/quicksend/app.py:816-823 | `addr:port` parses back to the address and port |
| LanAddress.SplitHostPort | quicksend/quicksend/quicksend/app.py:816-818 | `addr:port` splits into the address and the port text |
| LanAddress.BareHostRoundTrip | quicksend/quicksend/quicksend/app.py:816-818 | a bare address parses to itself with no port |
| LanAddress.BracketedHostRoundTrip | quicksend/quicksend/quicksend/app.py:806-815 | `[addr]:port` parses to the unbracketed address and port |
| LanAddress.SplitBracketed | quicksend/quicksend/quicksend/app.py:806-810 | `[addr]:port` splits into the unbracketed address and the port text |
| LanAddress.ReadPort | quicksend/quicksend/quicksend/app.py:811-823 | a port text that `int()` reads is the parsed port |
| LanAddress.BracketedBareRoundTrip | quicksend/quicksend/quicksend/app.py:806-810 | `[addr]` parses to the address and no port |
| LanAddress.LoopbackReplaced | quicksend/quicksend/quicksend/app.py:825-839 | the reported ip is the LAN address exactly when the one found is a loopback name and the LAN address is usable |
| LanAddress.ApiIp | quicksend/quicksend/quicksend/app.py:796-839 | the `/api/ip` answer: address and port from the Host text, the loopback replacement and the URL; its properties are HostPortChoice, HostAddressKept, LoopbackReplaced and LocalhostReported |
| LanAddress.FallbackPortRules | quicksend/quicksend/quicksend/app.py:827-832 | with no usable header port: an integer `X-Forwarded-Port` is taken, otherwise (absent, empty or not an integer) the server port |
| LanAddress.HostText | quicksend/quicksend/quicksend/app.py:803-823 | the Host text `addr:t` (no brackets, no inner `:`, no outer blanks) parses to `addr` and `int(t)` |
| LanAddress.HostPortChoice | quicksend/quicksend/quicksend/app.py:816-832 | for the Host text `addr:t`: the port is `int(t)` when it reads, else the `X-Forwarded-Port` fallback; a non-loopback `addr` is reported as it is when no env override is set |
| LanAddress.HostPortRead | quicksend/quicksend/quicksend/app.py:816-823 | for the Host text `addr:t` with `int(t)` readable, the port is `int(t)` |
| LanAddress.HostPortFallback | quicksend/quicksend/quicksend/app.py:816-832 | for the Host text `addr:t` with `int(t)` failing, the port is the forwarded port if an integer, else the server port |
| LanAddress.HostAddressKept | quicksend/quicksend/quicksend/app.py:816-826 | for the Host text `addr:t`, a non-loopback `addr` is the reported address when no env override is set |
| LanAddress.LocalhostReported | quicksend/quicksend/quicksend/app.py:816-839 | Host `localhost:<p>` with a usable LAN address and no env override reports the LAN address and port `p` |
| LanAddress.Before | quicksend/quicksend/quicksend/app.py:817-818 | `split(c)[0]`: the longest prefix without `c` |
| LanAddress.After | quicksend/quicksend/quicksend/app.py:817-821 | the text after the first `c`, present exactly when `c` occurs |
| LanAddress.Find | quicksend/quicksend/quicksend/app.py:807 | `find(c)`: index of the first `c`, none exactly when absent |
| UploadName.StoredName | quicksend/quicksend/quicksend/app.py:1063-1072 | the name an upload is saved under, as written; proved by StoredNameIsSafe and DotNamesSurvive |
| UploadName.StoredNameFixed | quicksend/quicksend/quicksend/app.py:1063-1072 | the same with `.`/`..` rebuilt to `file_<ms>`; proved by FixedNameIsSafe and FixedDotNames |
| UploadName.StoredNameIsSafe | quicksend/quicksend/quicksend/app.py:1063-1072 | a non-empty upload name is stored under a non-empty name with none of `\ / : * ? " < > \|` |
| UploadName.BlankNameStamped | quicksend/quicksend/quicksend/app.py:1066-1072 | a name blank after cleaning and stripping becomes `file_<ms>` |
| UploadName.CleanNameKept | quicksend/quicksend/quicksend/app.py:1063-1067 | an already clean, stripped name other than `.`/`..` is kept |
| UploadName.DotNamesSurvive | quicksend/quicksend/quicksend/app.py:1067-1072 | as written, the computed name of `.` and `..` stays `.`/`..`, the folder itself or its parent, so saving it fails |
| UploadName.FixedDotNames | quicksend/quicksend/quicksend/app.py:1067-1072 | with the fix, `.` and `..` become `file_<ms>` |
| UploadName.FixedNameIsSafe | quicksend/quicksend/quicksend/app.py:1063-1072 | with the fix the stored name is clean, non-empty and never `.`/`..` |
| UploadName.Rebuilt | quicksend/quicksend/quicksend/app.py:1067-1072 | a rebuilt name is the safe base plus the dot-free extension |
| UploadName.RebuiltFixed | quicksend/quicksend/quicksend/app.py:1067-1072 | the same with a dots-only base replaced |
| UploadName.RemoveForbidden | quicksend/quicksend/quicksend/app.py:1065 | the result has no forbidden character, only input characters, and leaves clean input as is |
| UploadName.RemoveDots | quicksend/quicksend/quicksend/app.py:1071 | no dot remains, only input characters |
| UploadName.SplitExt | quicksend/quicksend/quicksend/app.py:1068 | base + ext is the name; ext is empty or one leading dot with a dot-free rest and a base not all dots |
| UploadName.CleanBase | quicksend/quicksend/quicksend/app.py:1064-1065 | the cleaned last component has no forbidden character and no `/` |
| UploadName.DotsOnlyName | quicksend/quicksend/quicksend/app.py:1064-1068 | `.`/`..` pass cleaning, stripping and `splitext` unchanged |
| UploadName.DotNames | quicksend/quicksend/quicksend/app.py:1067 | the dots-only names of length 1–2 are exactly `.` and `..` |
| UploadName.SplitExtAllDots | quicksend/quicksend/quicksend/app.py:1068 | a dots-only name has no extension |
| UploadName.SplitExtNoDot | quicksend/quicksend/quicksend/app.py:1068 | a dot-free name has no extension |
| UploadName.SafeBaseOfBlank | quicksend/quicksend/quicksend/app.py:1070 | a blank base becomes `file_<ms>` |
| UploadName.StampClean | quicksend/quicksend/quicksend/app.py:1069-1070 | `file_<ms>` is clean, non-empty and not `.`/`..` |
| Text.StripOrIsPython | quicksend/quicksend/quicksend/app.py:1054 | for a stripped default, the model's default rule is `(v or d).strip() or d` |
| Text.PyStripEmpty | quicksend/quicksend/quicksend/app.py:1066 | `strip()` is empty exactly when every character is whitespace |
| Text.PyStripIdempotent | quicksend/quicksend/quicksend/app.py:1066 | stripping twice changes nothing more |
| Text.DecimalRoundTrip | quicksend/quicksend/quicksend/app.py:1069 | decimal text reads back as the number |
| Text.PyIntReadsDecimal | quicksend/quicksend/quicksend/app.py:821 | `int()` reads a padded decimal back |
| Text.AfterLast | quicksend/quicksend/quicksend/app.py:1064 | the text after the last `c`: a suffix without `c`, preceded by `c` or the whole string |
| StoreData.RootOnly | quicksend/quicksend/quicksend/app.py:489-496 | the created table holds only `root`, with no parent |
| StoreRules.Loaded | quicksend/quicksend/quicksend/app.py:487-507 | the store after `_ensure_groups`; proved by LoadedDefaults and LoadIdempotent |
| StoreRules.LoadedDefaults | quicksend/quicksend/quicksend/app.py:487-507 | a missing table becomes root-only; every entry but `__debug__` gets a group, `root` by default, and keeps its stored one |
| StoreRules.LoadIdempotent | quicksend/quicksend/quicksend/app.py:487-507 | loading a loaded dictionary changes nothing |
| StoreRules.CreateOutcome | quicksend/quicksend/quicksend/app.py:1291-1310 | status and store after `POST /api/groups`; proved by CreateStatus, CreateAddsOneRow and CreateKeepsAcyclicStore |
| StoreRules.CreateStatus | quicksend/quicksend/quicksend/app.py:1293-1298 | 400 exactly for a blank name, 403 exactly for a remote caller with remote creation off; refusals change nothing |
| StoreRules.CreateAddsOneRow | quicksend/quicksend/quicksend/app.py:1299-1310 | exactly one new row: stripped name, parent defaulting to `root` (unchecked), not hidden, not pinned; nothing else changes |
| StoreRules.CreateKeepsAcyclicStore | quicksend/quicksend/quicksend/app.py:1299-1310 | a fresh id under any other parent keeps the table acyclic |
| StoreRules.UpdateOutcome | quicksend/quicksend/quicksend/app.py:1337-1374 | status and store after `PUT /api/groups/<gid>`; proved by UpdateStatus, UpdateSetsRow, UpdateTouchesOneRow, UpdateKeepsAcyclicStore and UpdateRefusesExactlyCycles |
| StoreRules.UpdateStatus | quicksend/quicksend/quicksend/app.py:1337-1366 | 403 exactly for a remote caller, 404 exactly for a local caller and an unknown id, 400 exactly for a blank name or a refused parent, 200 otherwise; refusals change nothing |
| StoreRules.UpdateSetsRow | quicksend/quicksend/quicksend/app.py:1348-1370 | an accepted update gives row `gid` the stripped name, the stripped parent (root, or an existing group other than `gid`) and the pin flag that were sent, keeping every other field and every unsent value |
| StoreRules.UpdateTouchesOneRow | quicksend/quicksend/quicksend/app.py:1338-1373 | a refused update changes nothing; an accepted one changes only row `gid` |
| StoreRules.UpdateKeepsAcyclicStore | quicksend/quicksend/quicksend/app.py:1355-1366 | update keeps an acyclic table acyclic |
| StoreRules.UpdateRefusesExactlyCycles | quicksend/quicksend/quicksend/app.py:1355-1366 | for a valid other parent, 400 exactly when setting it would create a cycle |
| StoreRules.NoSelfParent | quicksend/quicksend/quicksend/app.py:1362-1365 | in an acyclic table no group is its own parent |
| StoreRules.DeleteGroupOutcome | quicksend/quicksend/quicksend/app.py:1377-1417 | status and store after `DELETE /api/groups/<gid>`; proved by DeleteGroupStatus, DeleteGroupReparents, DeleteGroupFiles, DeleteLeavesNoReference and DeleteKeepsAcyclicStore |
| StoreRules.DeleteGroupStatus | quicksend/quicksend/quicksend/app.py:1378-1385 | 403 exactly for a remote caller, 404 exactly for `root` or an unknown id; refusals change nothing |
| StoreRules.DeleteGroupReparents | quicksend/quicksend/quicksend/app.py:1386-1413 | the row goes; children take its parent (or `root`); no other row changes; texts stay |
| StoreRules.DeleteGroupFiles | quicksend/quicksend/quicksend/app.py:1393-1412 | `delete_only` moves the group's files to that parent, `delete_with_files` drops them; other entries unchanged |
| StoreRules.DeleteLeavesNoReference | quicksend/quicksend/quicksend/app.py:1386-1413 | afterwards no group and no file entry names the deleted id |
| StoreRules.DeleteKeepsAcyclicStore | quicksend/quicksend/quicksend/app.py:1386-1413 | deletion keeps an acyclic table acyclic |
| StoreRules.Listing | quicksend/quicksend/quicksend/app.py:1312-1334 | the group listing for a caller; proved by ListingShows, ListingClosed and ListingChildrenAgree |
| StoreRules.ListingShows | quicksend/quicksend/quicksend/app.py:1313-1333 | local callers see all groups, remote callers exactly the non-hidden ones, with their names and flags |
| StoreRules.ListingClosed | quicksend/quicksend/quicksend/app.py:1316-1333 | a reported parent is listed, an unlisted parent is reported as none, every child is listed |
| StoreRules.ListingChildrenAgree | quicksend/quicksend/quicksend/app.py:1316-1330 | `c` is in `p`'s children exactly when `c` is listed with parent `p` |
| StoreRules.SetFileGroupOutcome | quicksend/quicksend/quicksend/app.py:1419-1445 | status and store after `POST /api/files/<name>/group`; proved by SetFileGroupRules |
| StoreRules.SetFileGroupRules | quicksend/quicksend/quicksend/app.py:1419-1445 | 403/404/400 exactly in their cases and order; a move sets the group (root or existing) of that entry only |
| StoreRules.DeleteFileOutcome | quicksend/quicksend/quicksend/app.py:1465-1486 | status and store after `DELETE /api/files/<name>` as written; proved by DeleteFileOwnership, RemoteCallerWipesGroups and RemoteCallerWipesTexts |
| StoreRules.DeleteFileOutcomeFixed | quicksend/quicksend/quicksend/app.py:1465-1486 | the same route with `__groups__`/`__texts__` refused; proved by FixedKeepsTables |
| StoreRules.DeleteFileOwnership | quicksend/quicksend/quicksend/app.py:1465-1486 | for a file entry, 403 exactly for the metadata file or a set owner, another caller and a remote request; otherwise only that entry goes |
| StoreRules.RemoteCallerWipesGroups | quicksend/quicksend/quicksend/app.py:1465-1486 | as written, any remote caller empties the group table |
| StoreRules.RemoteCallerWipesTexts | quicksend/quicksend/quicksend/app.py:1465-1486 | as written, any remote caller empties the text table |
| StoreRules.FixedKeepsTables | quicksend/quicksend/quicksend/app.py:1465-1486 | with the tables protected, no deletion touches them and file deletion is unchanged |
| StoreRules.SetPasswordOutcome | quicksend/quicksend/quicksend/app.py:1584-1607 | status and store after `POST /api/files/<name>/password`; proved by SetPasswordRules |
| StoreRules.SetPasswordRules | quicksend/quicksend/quicksend/app.py:1584-1607 | 403 exactly under the ownership rule, then 400 for no password; setting gives that entry the new hash and keeps its other fields, clearing removes it; no other entry changes; a new entry is the caller's |
| StoreRules.DeleteTextOutcome | quicksend/quicksend/quicksend/app.py:1203-1237 | status and store after `DELETE /api/texts/<tid>`; proved by TextIdTakesPrecedence and DeleteTextRules |
| StoreRules.TextIdTakesPrecedence | quicksend/quicksend/quicksend/app.py:1225-1233 | a stored uploader id alone decides for remote callers; otherwise the name does |
| StoreRules.DeleteTextRules | quicksend/quicksend/quicksend/app.py:1203-1237 | 404 then 403 exactly in their cases; only that text goes |
| MetadataStore.Metadata.Load | quicksend/quicksend/quicksend/app.py:487-507 | the loaded state is the defaulted dictionary |
| MetadataStore.Metadata.CreateGroup | quicksend/quicksend/quicksend/app.py:1291-1310 | status and new state are those of the create rule |
| MetadataStore.Metadata.UpdateGroup | quicksend/quicksend/quicksend/app.py:1337-1374 | the `while curr` walk ends on an acyclic table; status and state are those of the update rule |
| MetadataStore.Metadata.DeleteGroup | quicksend/quicksend/quicksend/app.py:1377-1417 | status and state are those of the delete rule |
| MetadataStore.Metadata.ReparentChildren | quicksend/quicksend/quicksend/app.py:1386-1391 | the reparent loop yields the reparented table |
| MetadataStore.Metadata.MoveGroupFiles | quicksend/quicksend/quicksend/app.py:1393-1412 | the file loop moves or drops exactly the group's entries |
| MetadataStore.Metadata.ListGroups | quicksend/quicksend/quicksend/app.py:1312-1334 | the three loops produce exactly the listing |
| MetadataStore.Metadata.VisibleIds | quicksend/quicksend/quicksend/app.py:1313-1315 | the visible ids are every group for a local caller and exactly the non-hidden groups otherwise |
| MetadataStore.Metadata.ChildBuckets | quicksend/quicksend/quicksend/app.py:1316-1322 | each visible id lands in exactly one bucket: its parent when that parent is set and visible, else the top bucket |
| MetadataStore.Metadata.SetFileGroup | quicksend/quicksend/quicksend/app.py:1419-1445 | status and state are those of the move rule |
| MetadataStore.Metadata.DeleteFile | quicksend/quicksend/quicksend/app.py:1465-1486 | status and state are those of the delete rule as written |
| MetadataStore.Metadata.DeleteFileFixed | quicksend/quicksend/quicksend/app.py:1465-1486 | status and state are those of the corrected delete rule |
| MetadataStore.Metadata.SetFilePassword | quicksend/quicksend/quicksend/app.py:1584-1607 | status and state are those of the password rule |
| MetadataStore.Metadata.DeleteText | quicksend/quicksend/quicksend/app.py:1203-1237 | status and state are those of the text delete rule |
| AnalyticsIngest.SafeText | supabase/functions/quicksend-analytics-ingest/index.ts:32-36 | null exactly for null/undefined; otherwise a prefix of at most maxLen, the whole text when short enough |
| AnalyticsIngest.Truncate | supabase/functions/quicksend-analytics-ingest/index.ts:35 | a prefix of at most n; the whole string when short enough, exactly n otherwise |
| AnalyticsIngest.AnonKeys | supabase/functions/quicksend-analytics-ingest/index.ts:62-66 | the allowed keys are exactly the trimmed non-empty env values |
| AnalyticsIngest.Bearer | supabase/functions/quicksend-analytics-ingest/index.ts:70 | a non-empty token follows a 7-character prefix that lower-cases to `bearer ` |
| AnalyticsIngest.BearerAnyCase | supabase/functions/quicksend-analytics-ingest/index.ts:70 | any ASCII case of `bearer ` yields the token |
| AnalyticsIngest.CountryCode | supabase/functions/quicksend-analytics-ingest/index.ts:51-52 | an accepted country is exactly two letters A–Z |
| AnalyticsIngest.FirstCountry | supabase/functions/quicksend-analytics-ingest/index.ts:38-55 | the country read from the first candidate header that has one; proved by FirstCountryIsFirst and CountryCode |
| AnalyticsIngest.FirstCountryIsFirst | supabase/functions/quicksend-analytics-ingest/index.ts:38-55 | the first header in candidate order that reads as a country wins; none when none does |
| AnalyticsIngest.Prepare | supabase/functions/quicksend-analytics-ingest/index.ts:59-105 | a refused request sends no row |
| AnalyticsIngest.OptionsFirst | supabase/functions/quicksend-analytics-ingest/index.ts:59 | `OPTIONS` gets 204 with no body, before anything else |
| AnalyticsIngest.OtherMethodsRefused | supabase/functions/quicksend-analytics-ingest/index.ts:60 | other non-`POST` methods get 405 |
| AnalyticsIngest.NoKeysMisconfigured | supabase/functions/quicksend-analytics-ingest/index.ts:62-67 | no key configured gives 500 before credentials are read |
| AnalyticsIngest.AuthorisationDecides | supabase/functions/quicksend-analytics-ingest/index.ts:68-71 | 401 exactly when neither `apikey` nor the bearer token is allowed, whatever the payload |
| AnalyticsIngest.NoCredentials | supabase/functions/quicksend-analytics-ingest/index.ts:68-71 | no credential headers means unauthorised |
| AnalyticsIngest.ValidationOrder | supabase/functions/quicksend-analytics-ingest/index.ts:80-87 | invalid event, then missing id, then missing insert configuration, in that order |
| AnalyticsIngest.MisconfiguredAfterValidation | supabase/functions/quicksend-analytics-ingest/index.ts:85-87 | the insert-configuration 500 only follows a valid event and id |
| AnalyticsIngest.SentRowShape | supabase/functions/quicksend-analytics-ingest/index.ts:80-105 | a sent row has an allowed event, a non-empty id, fields cut to 64/128/128/32/16, `is_frozen ?? null` and props within the cap |
| AnalyticsIngest.ReadyRowShape | supabase/functions/quicksend-analytics-ingest/index.ts:80-105 | the row built from a request that passes every check has the shape stated for SentRowShape |
| AnalyticsIngest.StoredProps | supabase/functions/quicksend-analytics-ingest/index.ts:89-93 | the props sent with the row; proved by GeoInjection |
| AnalyticsIngest.GeoInjection | supabase/functions/quicksend-analytics-ingest/index.ts:89-93 | `geo_country` is added only when absent; caller keys kept; non-object props become `{}` |
| AnalyticsIngest.PropsCap | supabase/functions/quicksend-analytics-ingest/index.ts:94-95 | 413 exactly when the props exceed 16 000; otherwise they are sent |
| AnalyticsIngest.Handle | supabase/functions/quicksend-analytics-ingest/index.ts:57-128 | the response to one request; proved by OptionsFirst through RefusedNotSent |
| AnalyticsIngest.Respond | supabase/functions/quicksend-analytics-ingest/index.ts:119-126 | the response once the row is prepared; proved by InsertDecides |
| AnalyticsIngest.InsertDecides | supabase/functions/quicksend-analytics-ingest/index.ts:119-126 | the insert outcome alone decides 200 / 500 `insert_failed` (detail ≤ 500) / 500 |
| AnalyticsIngest.RefusedNotSent | supabase/functions/quicksend-analytics-ingest/index.ts:59-123 | a row is sent exactly when every check passes |

## Left out

- File I/O is not modelled: reading and writing `metadata.json`, `os.remove`, `file.save`, and the routing-probe and resolver sockets. Their results are parameters.
- Clocks are inputs: `mtime` is not modelled, and `ms` is a parameter.
- `uuid4`, werkzeug password hashing and `request.remote_addr` are parameters.
- Case mapping is ASCII only. Unicode `str.lower()` and `toUpperCase()`/`toLowerCase()` (e.g. `ß` upper-casing to `SS`, which would pass the two-letter country test) are not modelled. Nor are Unicode digits in Python `int()`.
- String lengths count characters, not UTF-16 code units, in `safeText` and `slice`.
- `str()` of non-string JSON values in `api_group_update` is not modelled: a name or parent of `null` becomes `"None"` there. Values are taken as strings.
- StoreRules.SetFileGroupOutcome: requires a name other than `__groups__`/`__texts__`. For those the handler writes a `group_id` key into the table itself, which the typed tables cannot hold.
- StoreRules.SetPasswordOutcome: requires a name other than `__groups__`/`__texts__`, for the same reason.
- StoreRules.SetFileGroupRules: requires a name other than `__groups__`/`__texts__`, as SetFileGroupOutcome does.
- StoreRules.SetPasswordRules: requires a name other than `__groups__`/`__texts__`, as SetPasswordOutcome does.
- MetadataStore.Metadata.SetFileGroup: requires a name other than `__groups__`/`__texts__`, as SetFileGroupOutcome does.
- MetadataStore.Metadata.SetFilePassword: requires a name other than `__groups__`/`__texts__`, as SetPasswordOutcome does.
- MetadataStore.Metadata.UpdateGroup: requires an acyclic table. The `while curr` walk of the source fails to end only when the chain from the new parent enters a cycle that does not pass through `gid`; a cyclic table whose cycle the walk never meets (for instance when the new parent is `root`) is handled by the source but excluded here.
- File entries are assumed to carry `uploader`. `_ensure_groups` skips dictionaries without it, and non-dictionary entries are not modelled.
- The text GET route (password check on read) is not modelled: it reads nothing the ownership rules change.
- The hidden-flag route (`api_group_hidden`) is not modelled.
- Listing order and `mtime`: children and items are sets or maps, so the order of the Python lists is not modelled.
- Paths use `posixpath` semantics for `basename`/`splitext`. Windows `ntpath` also splits on `\`, which sanitisation removes anyway.
- GroupTree.BuildGroupTree: requires unique ids, as groups come from dictionary keys. With duplicate ids the JavaScript can attach a node under itself and `setDepth` would not terminate.
- Tree nodes are values: `setDepth` builds depth-stamped nodes instead of overwriting `node.depth` through shared references.
- LanAddress.GetLocalIp: the outer `except Exception` paths are not modelled. Resolver failures are empty answer lists.
- `is_frozen` and non-string payload fields are taken by their `String(v)` text. The JSON props size is the abstract `sizeOf`.
- Exceptions thrown inside the ingest handler other than reading a field of a `null` body and the insert call are not modelled: the `catch` answers 500 `internal_error`. The error message text is not modelled.
- Response headers and CORS are not modelled.

## Findings

| source | as written | input that shows it | evidently intended | confidence | as-written member | corrected member |
|---|---|---|---|---|---|---|
| quicksend/quicksend/quicksend/app.py:1066-1094 | a sanitised name equal to `.` or `..` triggers the rebuild, but `splitext` keeps it as the base, which strips to itself; `file.save` to that folder path fails and the request answers 500 `upload failed`, leaving files saved earlier in the request on disk without metadata entries | upload named `..` | `file_<ms>` | high, not executed | UploadName.DotNamesSurvive | UploadName.FixedNameIsSafe |
| quicksend/quicksend/quicksend/app.py:1465-1486 | `delete_file_api` treats `__groups__`/`__texts__` as files; their "owner" is the row whose id is `uploader`, so with none any remote caller deletes the whole table | remote `DELETE /api/files/__groups__` | refused like `metadata.json` | medium, not executed | StoreRules.RemoteCallerWipesGroups | StoreRules.FixedKeepsTables |
