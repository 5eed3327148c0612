/**
 * The group tree the web client draws in its sidebar (`buildGroupTree` in
 * Home.tsx). Every group hangs under its parent, or under the root when the
 * parent is not a known group; the root itself is never a child; each node's
 * children are ordered pinned first, keeping input order otherwise; depths
 * count from 0 at the root.
 *
 * Tree nodes are values: `setDepth`, which stamps depths on shared node
 * objects, becomes a recursive method that builds depth-stamped nodes.
 */
module GroupTree {
  import opened Wrappers

  const RootId: string := "root"

  /** A group record as the client receives it (`GroupItem`); absent flags read as false. */
  datatype GroupItem = GroupItem(id: string, name: string, parentId: Option<string>, hidden: bool, isPinned: bool)

  /** A node of the drawn tree (`GroupTreeItem`): the record, its ordered children and its depth. */
  datatype GroupTreeItem = GroupTreeItem(group: GroupItem, childrenNodes: seq<GroupTreeItem>, depth: nat)

  /** The root record the client makes up when the server sent none. */
  const SyntheticRoot: GroupItem := GroupItem(RootId, "root", None, false, false)

  /** Group ids are the keys of the server's group dictionary, so they are distinct. */
  predicate UniqueIds(groups: seq<GroupItem>) {
    forall i, j :: 0 <= i < j < |groups| ==> groups[i].id != groups[j].id
  }

  /** The lookup map after the first pass: each id maps to its record, later records winning. */
  function IndexById(groups: seq<GroupItem>): (m: map<string, GroupItem>)
    ensures forall k :: k in m ==> m[k].id == k && m[k] in groups
  {
    if groups == [] then map[]
    else
      var g := groups[|groups| - 1];
      var before := IndexById(groups[..|groups| - 1]);
      assert forall k :: k in before ==> before[k] in groups;
      before[g.id := g]
  }

  /** The lookup map once the root is ensured. */
  function Nodes(groups: seq<GroupItem>): (m: map<string, GroupItem>)
    ensures RootId in m
    ensures forall k :: k in m ==> m[k].id == k
  {
    var index := IndexById(groups);
    if RootId in index then index else index[RootId := SyntheticRoot]
  }

  /** `parent_id || 'root'`: a missing or empty parent means the root. */
  function ParentKey(g: GroupItem): string {
    match g.parentId
    case None => RootId
    case Some(p) => if p == "" then RootId else p
  }

  /** The node a record is attached to: its parent when that is a known node, else the root. */
  function AttachTarget(nodes: map<string, GroupItem>, g: GroupItem): string {
    var p := ParentKey(g);
    if p in nodes then p else RootId
  }

  /** The records the attach pass over `groups` pushes, in order, onto node `k`. */
  function ChildrenOf(groups: seq<GroupItem>, nodes: map<string, GroupItem>, k: string): seq<GroupItem> {
    if groups == [] then []
    else
      var g := groups[|groups| - 1];
      ChildrenOf(groups[..|groups| - 1], nodes, k) + (if g.id != RootId && AttachTarget(nodes, g) == k then [g] else [])
  }

  /** The pinned records of `s`, in order. */
  function Pinned(s: seq<GroupItem>): (r: seq<GroupItem>)
    ensures forall j :: 0 <= j < |r| ==> r[j].isPinned
  {
    if s == [] then [] else (if s[0].isPinned then [s[0]] else []) + Pinned(s[1..])
  }

  /** The unpinned records of `s`, in order. */
  function Unpinned(s: seq<GroupItem>): (r: seq<GroupItem>)
    ensures forall j :: 0 <= j < |r| ==> !r[j].isPinned
  {
    if s == [] then [] else (if s[0].isPinned then [] else [s[0]]) + Unpinned(s[1..])
  }

  /** No unpinned record comes before a pinned one. */
  predicate PinnedBeforeUnpinned(s: seq<GroupItem>) {
    forall i, j :: 0 <= i < j < |s| && s[j].isPinned ==> s[i].isPinned
  }

  /**
   * `r` is what a stable sort of `s` by the pinned-first comparator gives:
   * sorted, and each class of equal records (pinned, unpinned) keeps its order.
   */
  predicate IsStablePinSort(s: seq<GroupItem>, r: seq<GroupItem>) {
    PinnedBeforeUnpinned(r) && Pinned(r) == Pinned(s) && Unpinned(r) == Unpinned(s)
  }

  /** The sibling order: pinned records first. */
  function PinnedFirst(s: seq<GroupItem>): seq<GroupItem> {
    Pinned(s) + Unpinned(s)
  }

  lemma {:induction false} PinnedAppend(a: seq<GroupItem>, b: seq<GroupItem>)
    ensures Pinned(a + b) == Pinned(a) + Pinned(b)
    ensures Unpinned(a + b) == Unpinned(a) + Unpinned(b)
  {
    if a != [] {
      assert (a + b)[1..] == a[1..] + b;
      PinnedAppend(a[1..], b);
    } else {
      assert a + b == b;
    }
  }

  lemma {:induction false} PinnedOfUniform(s: seq<GroupItem>)
    ensures (forall j :: 0 <= j < |s| ==> s[j].isPinned) ==> Pinned(s) == s && Unpinned(s) == []
    ensures (forall j :: 0 <= j < |s| ==> !s[j].isPinned) ==> Pinned(s) == [] && Unpinned(s) == s
  {
    if s != [] {
      PinnedOfUniform(s[1..]);
      assert s == [s[0]] + s[1..];
    }
  }

  lemma {:induction false} PinnedSplitMultiset(s: seq<GroupItem>)
    ensures multiset(Pinned(s)) + multiset(Unpinned(s)) == multiset(s)
  {
    if s != [] {
      PinnedSplitMultiset(s[1..]);
      assert s == [s[0]] + s[1..];
    }
  }

  /** A sorted sequence is its pinned part followed by its unpinned part. */
  lemma {:induction false} SortedSplits(r: seq<GroupItem>)
    requires PinnedBeforeUnpinned(r)
    ensures r == Pinned(r) + Unpinned(r)
  {
    if r != [] {
      if r[0].isPinned {
        assert PinnedBeforeUnpinned(r[1..]) by {
          forall i, j | 0 <= i < j < |r[1..]| && r[1..][j].isPinned ensures r[1..][i].isPinned {
            assert r[i + 1] == r[1..][i] && r[j + 1] == r[1..][j];
          }
        }
        SortedSplits(r[1..]);
        assert r == [r[0]] + r[1..];
      } else {
        forall j | 0 <= j < |r| ensures !r[j].isPinned {
          if 0 < j {
            assert r[0].isPinned || !r[j].isPinned;
          }
        }
        PinnedOfUniform(r);
      }
    }
  }

  /** Pinned-first is a stable sort by the comparator and a permutation of its input. */
  lemma PinnedFirstSorts(s: seq<GroupItem>)
    ensures IsStablePinSort(s, PinnedFirst(s))
    ensures multiset(PinnedFirst(s)) == multiset(s)
  {
    var p, u := Pinned(s), Unpinned(s);
    var r := p + u;
    forall j | |p| <= j < |r| ensures !r[j].isPinned {
      assert r[j] == u[j - |p|];
    }
    forall i | 0 <= i < |p| ensures r[i].isPinned {
      assert r[i] == p[i];
    }
    PinnedAppend(p, u);
    PinnedOfUniform(p);
    PinnedOfUniform(u);
    assert Pinned(r) == p;
    assert Unpinned(r) == u;
    PinnedSplitMultiset(s);
  }

  /** Any stable sort by the comparator gives exactly the pinned-first order. */
  lemma StablePinSortUnique(s: seq<GroupItem>, r: seq<GroupItem>)
    requires IsStablePinSort(s, r)
    ensures r == PinnedFirst(s)
  {
    SortedSplits(r);
  }

  /** The children lists after attaching and sorting, for every node. */
  function SortedChildren(groups: seq<GroupItem>): map<string, seq<GroupItem>> {
    var nodes := Nodes(groups);
    map k | k in nodes :: PinnedFirst(ChildrenOf(groups, nodes, k))
  }

  /** The records listed under `t`'s children, in order. */
  function ChildGroups(t: GroupTreeItem): (r: seq<GroupItem>)
    ensures |r| == |t.childrenNodes|
  {
    seq(|t.childrenNodes|, j requires 0 <= j < |t.childrenNodes| => t.childrenNodes[j].group)
  }

  /** `t` is the node for `t.group` at depth `d`, with children as `children` lists them, recursively. */
  ghost predicate Conforms(t: GroupTreeItem, children: map<string, seq<GroupItem>>, d: nat)
    decreases t
  {
    t.depth == d && t.group.id in children
    && |t.childrenNodes| == |children[t.group.id]|
    && forall j :: 0 <= j < |t.childrenNodes| ==>
         t.childrenNodes[j].group == children[t.group.id][j] && Conforms(t.childrenNodes[j], children, d + 1)
  }

  /** The tree `buildGroupTree` returns: the root record with every descendant placed as `SortedChildren` says. */
  ghost predicate IsBuiltTree(groups: seq<GroupItem>, t: GroupTreeItem) {
    t.group == Nodes(groups)[RootId] && Conforms(t, SortedChildren(groups), 0)
  }

  /** Every listed child is a known, non-root node attached to its list's owner. */
  ghost predicate ChildLinks(children: map<string, seq<GroupItem>>, nodes: map<string, GroupItem>) {
    children.Keys == nodes.Keys
    && forall k, j :: k in children && 0 <= j < |children[k]| ==>
         var c := children[k][j];
         c.id != RootId && c.id in nodes && nodes[c.id] == c && AttachTarget(nodes, c) == k
  }

  /** A chain of ids from the root down to the node being visited, each attached to the one before. */
  ghost predicate AncestorPath(nodes: map<string, GroupItem>, path: seq<string>) {
    |path| >= 1 && path[0] == RootId
    && (forall j :: 0 <= j < |path| ==> path[j] in nodes)
    && (forall j, l :: 0 <= j < l < |path| ==> path[j] != path[l])
    && (forall j :: 0 < j < |path| ==> AttachTarget(nodes, nodes[path[j]]) == path[j - 1])
  }

  /** `buildGroupTree`: the single root node of the group tree. */
  method BuildGroupTree(groups: seq<GroupItem>) returns (roots: seq<GroupTreeItem>)
    requires UniqueIds(groups)
    ensures |roots| == 1 && IsBuiltTree(groups, roots[0])
  {
    var nodes := IndexNodes(groups);
    var children := AttachChildren(groups, nodes);
    children := SortChildren(children);
    assert children == SortedChildren(groups);
    SortedChildrenLinks(groups);
    var rootNode := SetDepth(children, nodes, nodes[RootId], 0, [RootId]);
    roots := [rootNode];
  }

  /** The first pass and the root check: the lookup map from ids to records. */
  method IndexNodes(groups: seq<GroupItem>) returns (nodes: map<string, GroupItem>)
    ensures nodes == Nodes(groups)
  {
    nodes := map[];
    var i := 0;
    while i < |groups|
      invariant 0 <= i <= |groups|
      invariant nodes == IndexById(groups[..i])
    {
      assert groups[..i + 1][..i] == groups[..i];
      nodes := nodes[groups[i].id := groups[i]];
      i := i + 1;
    }
    assert groups[..|groups|] == groups;
    if RootId !in nodes {
      nodes := nodes[RootId := SyntheticRoot];
    }
  }

  /** The attach pass: every non-root record pushed onto its parent's list, or the root's. */
  method AttachChildren(groups: seq<GroupItem>, nodes: map<string, GroupItem>) returns (children: map<string, seq<GroupItem>>)
    requires UniqueIds(groups) && nodes == Nodes(groups)
    ensures children.Keys == nodes.Keys
    ensures forall k :: k in children ==> children[k] == ChildrenOf(groups, nodes, k)
  {
    children := map k | k in nodes :: [];
    var i := 0;
    while i < |groups|
      invariant 0 <= i <= |groups|
      invariant children.Keys == nodes.Keys
      invariant forall k :: k in children ==> children[k] == ChildrenOf(groups[..i], nodes, k)
    {
      var g := groups[i];
      ghost var before := children;
      if g.id != RootId {
        IndexByIdOfUnique(groups, i);
        var node := nodes[g.id];
        var parentId := ParentKey(g);
        if parentId in nodes {
          children := children[parentId := children[parentId] + [node]];
        } else {
          children := children[RootId := children[RootId] + [node]];
        }
      }
      AttachStep(groups, i, nodes, before, children);
      i := i + 1;
    }
    assert groups[..|groups|] == groups;
  }

  /** One step of the attach pass keeps the lists equal to `ChildrenOf` on the records seen so far. */
  lemma AttachStep(groups: seq<GroupItem>, i: nat, nodes: map<string, GroupItem>,
                   before: map<string, seq<GroupItem>>, after: map<string, seq<GroupItem>>)
    requires i < |groups| && RootId in nodes && before.Keys == nodes.Keys
    requires forall k :: k in before ==> before[k] == ChildrenOf(groups[..i], nodes, k)
    requires var g := groups[i]; var target := AttachTarget(nodes, g);
      after == if g.id == RootId then before else before[target := before[target] + [g]]
    ensures after.Keys == nodes.Keys
    ensures forall k :: k in after ==> after[k] == ChildrenOf(groups[..i + 1], nodes, k)
  {
    forall k | k in after ensures after[k] == ChildrenOf(groups[..i + 1], nodes, k) {
      ChildrenOfSnoc(groups, i, nodes, k);
    }
  }

  lemma ChildrenOfSnoc(groups: seq<GroupItem>, i: nat, nodes: map<string, GroupItem>, k: string)
    requires i < |groups|
    ensures ChildrenOf(groups[..i + 1], nodes, k)
         == ChildrenOf(groups[..i], nodes, k) + if groups[i].id != RootId && AttachTarget(nodes, groups[i]) == k then [groups[i]] else []
  {
    assert groups[..i + 1][..i] == groups[..i];
  }

  /** The sort pass: every node's children ordered pinned first. */
  method SortChildren(children: map<string, seq<GroupItem>>) returns (sorted: map<string, seq<GroupItem>>)
    ensures sorted.Keys == children.Keys
    ensures forall k :: k in sorted ==> sorted[k] == PinnedFirst(children[k])
  {
    sorted := children;
    var unsorted := children.Keys;
    while unsorted != {}
      invariant unsorted <= sorted.Keys && sorted.Keys == children.Keys
      invariant forall k :: k in sorted ==> sorted[k] == if k in unsorted then children[k] else PinnedFirst(children[k])
      decreases unsorted
    {
      var k :| k in unsorted;
      sorted := sorted[k := PinnedFirst(sorted[k])];
      unsorted := unsorted - {k};
    }
  }

  /** `setDepth`: the node for `item` at depth `d`, its children at `d + 1`, and so on down. */
  method SetDepth(children: map<string, seq<GroupItem>>, nodes: map<string, GroupItem>, item: GroupItem, d: nat, ghost path: seq<string>)
    returns (node: GroupTreeItem)
    requires ChildLinks(children, nodes)
    requires AncestorPath(nodes, path) && path[|path| - 1] == item.id && nodes[item.id] == item
    ensures node.group == item && Conforms(node, children, d)
    decreases nodes.Keys - (set x | x in path)
  {
    var kids := children[item.id];
    var built: seq<GroupTreeItem> := [];
    var i := 0;
    while i < |kids|
      invariant 0 <= i <= |kids| && |built| == i
      invariant forall j :: 0 <= j < i ==> built[j].group == kids[j] && Conforms(built[j], children, d + 1)
    {
      var c := kids[i];
      forall j | 0 <= j < |path| ensures path[j] != c.id {
        if j > 0 {
          assert path[j - 1] != path[|path| - 1];
          assert AttachTarget(nodes, nodes[path[j]]) != AttachTarget(nodes, nodes[c.id]);
        }
      }
      assert (set x | x in path + [c.id]) == (set x | x in path) + {c.id};
      var child := SetDepth(children, nodes, c, d + 1, path + [c.id]);
      built := built + [child];
      i := i + 1;
    }
    node := GroupTreeItem(item, built, d);
  }

  /** With distinct ids, the lookup map finds each record under its own id. */
  lemma {:induction false} IndexByIdOfUnique(groups: seq<GroupItem>, i: nat)
    requires UniqueIds(groups) && i < |groups|
    ensures groups[i].id in IndexById(groups) && IndexById(groups)[groups[i].id] == groups[i]
    ensures groups[i].id != RootId ==> Nodes(groups)[groups[i].id] == groups[i]
  {
    if i < |groups| - 1 {
      IndexByIdOfUnique(groups[..|groups| - 1], i);
    }
  }

  /** How often the attach pass pushes record `g` onto node `k`: as often as `g` occurs, if it attaches there. */
  lemma {:induction false} ChildrenOfCount(groups: seq<GroupItem>, nodes: map<string, GroupItem>, k: string, g: GroupItem)
    ensures multiset(ChildrenOf(groups, nodes, k))[g]
         == if g.id != RootId && AttachTarget(nodes, g) == k then multiset(groups)[g] else 0
  {
    if groups != [] {
      var n := |groups|;
      var init, last := groups[..n - 1], groups[n - 1];
      ChildrenOfCount(init, nodes, k, g);
      assert groups == init + [last];
      assert multiset(groups) == multiset(init) + multiset{last};
      var pushed := if last.id != RootId && AttachTarget(nodes, last) == k then [last] else [];
      assert ChildrenOf(groups, nodes, k) == ChildrenOf(init, nodes, k) + pushed;
      assert multiset(ChildrenOf(groups, nodes, k)) == multiset(ChildrenOf(init, nodes, k)) + multiset(pushed);
    }
  }

  lemma {:induction false} UniqueCount(groups: seq<GroupItem>, i: nat)
    requires UniqueIds(groups) && i < |groups|
    ensures multiset(groups)[groups[i]] == 1
  {
    var n := |groups|;
    assert groups == groups[..n - 1] + [groups[n - 1]];
    if i < n - 1 {
      UniqueCount(groups[..n - 1], i);
      assert groups[n - 1] != groups[i];
    } else {
      assert groups[i] !in groups[..n - 1] by {
        forall j | 0 <= j < n - 1 ensures groups[j] != groups[i] {
          assert groups[j].id != groups[i].id;
        }
      }
    }
  }

  /** The sorted children lists satisfy `ChildLinks`. */
  lemma SortedChildrenLinks(groups: seq<GroupItem>)
    requires UniqueIds(groups)
    ensures ChildLinks(SortedChildren(groups), Nodes(groups))
  {
    var nodes: map<string, GroupItem> := Nodes(groups);
    var ch: map<string, seq<GroupItem>> := SortedChildren(groups);
    forall k: string, j: int | k in ch && 0 <= j < |ch[k]|
      ensures ch[k][j].id != RootId && ch[k][j].id in nodes && nodes[ch[k][j].id] == ch[k][j]
           && AttachTarget(nodes, ch[k][j]) == k
    {
      var c := ch[k][j];
      var listed := ChildrenOf(groups, nodes, k);
      PinnedFirstSorts(listed);
      assert c in multiset(listed);
      ChildrenOfCount(groups, nodes, k, c);
      assert c in groups;
      var i :| 0 <= i < |groups| && groups[i] == c;
      IndexByIdOfUnique(groups, i);
    }
  }

  /**
   * Every non-root record is attached exactly once, under its parent when that
   * is a known group and under the root otherwise; a record with the root's
   * id is never attached.
   */
  lemma AttachedExactlyOnce(groups: seq<GroupItem>, i: nat, k: string)
    requires UniqueIds(groups) && i < |groups| && k in Nodes(groups)
    ensures var g := groups[i];
      var target := if ParentKey(g) in Nodes(groups) then ParentKey(g) else RootId;
      multiset(SortedChildren(groups)[k])[g] == if g.id != RootId && k == target then 1 else 0
  {
    var nodes := Nodes(groups);
    PinnedFirstSorts(ChildrenOf(groups, nodes, k));
    ChildrenOfCount(groups, nodes, k, groups[i]);
    UniqueCount(groups, i);
  }

  /** Each node's children are its attached records in stable pinned-first order. */
  lemma SiblingsSorted(groups: seq<GroupItem>, k: string)
    requires k in Nodes(groups)
    ensures IsStablePinSort(ChildrenOf(groups, Nodes(groups), k), SortedChildren(groups)[k])
  {
    PinnedFirstSorts(ChildrenOf(groups, Nodes(groups), k));
  }

  /** The root node is the server's root record when it sent one, else the made-up root. */
  lemma BuiltRoot(groups: seq<GroupItem>)
    requires UniqueIds(groups)
    ensures forall i :: 0 <= i < |groups| && groups[i].id == RootId ==> Nodes(groups)[RootId] == groups[i]
    ensures (forall i :: 0 <= i < |groups| ==> groups[i].id != RootId) ==> Nodes(groups)[RootId] == SyntheticRoot
  {
    forall i | 0 <= i < |groups| && groups[i].id == RootId ensures Nodes(groups)[RootId] == groups[i] {
      IndexByIdOfUnique(groups, i);
    }
  }

  /** `n` is `t` or a node somewhere below it. */
  ghost predicate InTree(t: GroupTreeItem, n: GroupTreeItem)
    decreases t
  {
    n == t || exists j :: 0 <= j < |t.childrenNodes| && InTree(t.childrenNodes[j], n)
  }

  /** Every node below a conforming node conforms at its own depth. */
  lemma {:induction false} SubtreeConforms(t: GroupTreeItem, children: map<string, seq<GroupItem>>, d: nat, n: GroupTreeItem)
    requires Conforms(t, children, d) && InTree(t, n)
    ensures Conforms(n, children, n.depth)
    decreases t
  {
    if n != t {
      var j :| 0 <= j < |t.childrenNodes| && InTree(t.childrenNodes[j], n);
      SubtreeConforms(t.childrenNodes[j], children, d + 1, n);
    }
  }

  /**
   * At every node of the built tree: the children are the records attached to
   * it in stable pinned-first order, each one level deeper.
   */
  lemma BuiltNodeShape(groups: seq<GroupItem>, t: GroupTreeItem, n: GroupTreeItem)
    requires IsBuiltTree(groups, t) && InTree(t, n)
    ensures n.group.id in Nodes(groups)
    ensures IsStablePinSort(ChildrenOf(groups, Nodes(groups), n.group.id), ChildGroups(n))
    ensures forall j :: 0 <= j < |n.childrenNodes| ==> n.childrenNodes[j].depth == n.depth + 1
  {
    NodeShape(t, SortedChildren(groups), n);
    SiblingsSorted(groups, n.group.id);
  }

  lemma NodeShape(t: GroupTreeItem, children: map<string, seq<GroupItem>>, n: GroupTreeItem)
    requires Conforms(t, children, 0) && InTree(t, n)
    ensures n.group.id in children && ChildGroups(n) == children[n.group.id]
    ensures forall j :: 0 <= j < |n.childrenNodes| ==> n.childrenNodes[j].depth == n.depth + 1
  {
    SubtreeConforms(t, children, 0, n);
  }

  /** One step up: the node a known id is attached to. */
  function Up(nodes: map<string, GroupItem>, x: string): string {
    if x in nodes then AttachTarget(nodes, nodes[x]) else RootId
  }

  /** `x` after `k` steps up. */
  function Ancestor(nodes: map<string, GroupItem>, x: string, k: nat): string
    decreases k
  {
    if k == 0 then x else Ancestor(nodes, Up(nodes, x), k - 1)
  }

  lemma {:induction false} AncestorSucc(nodes: map<string, GroupItem>, x: string, k: nat)
    ensures Ancestor(nodes, x, k + 1) == Up(nodes, Ancestor(nodes, x, k))
    decreases k
  {
    if k > 0 {
      AncestorSucc(nodes, Up(nodes, x), k - 1);
    }
  }

  /** `n` is below `m` and `m` below `t`: then `n` is below `t`. */
  lemma {:induction false} InTreeTrans(t: GroupTreeItem, m: GroupTreeItem, n: GroupTreeItem)
    requires InTree(t, m) && InTree(m, n)
    ensures InTree(t, n)
    decreases t
  {
    if m != t {
      var j :| 0 <= j < |t.childrenNodes| && InTree(t.childrenNodes[j], m);
      InTreeTrans(t.childrenNodes[j], m, n);
    }
  }

  /**
   * In a conforming tree, a node `e` levels below the top reaches the top's id
   * in exactly `e` steps up, passing no root on the way.
   */
  lemma {:induction false} DepthChain(t: GroupTreeItem, children: map<string, seq<GroupItem>>, d: nat, nodes: map<string, GroupItem>, n: GroupTreeItem)
    requires Conforms(t, children, d) && ChildLinks(children, nodes) && InTree(t, n)
    ensures d <= n.depth && Ancestor(nodes, n.group.id, n.depth - d) == t.group.id
    ensures forall k :: 0 <= k < n.depth - d ==> Ancestor(nodes, n.group.id, k) != RootId
    decreases t
  {
    if n != t {
      var j :| 0 <= j < |t.childrenNodes| && InTree(t.childrenNodes[j], n);
      var c := t.childrenNodes[j];
      DepthChain(c, children, d + 1, nodes, n);
      assert c.group == children[t.group.id][j];
      assert Up(nodes, c.group.id) == t.group.id;
      AncestorSucc(nodes, n.group.id, n.depth - d - 1);
    }
  }

  /** In the built tree a node's depth is the number of steps from its id up to the root. */
  lemma BuiltDepth(groups: seq<GroupItem>, t: GroupTreeItem, n: GroupTreeItem)
    requires UniqueIds(groups) && IsBuiltTree(groups, t) && InTree(t, n)
    ensures Ancestor(Nodes(groups), n.group.id, n.depth) == RootId
    ensures forall k :: 0 <= k < n.depth ==> Ancestor(Nodes(groups), n.group.id, k) != RootId
  {
    assert t.group.id == RootId;
    SortedChildrenLinks(groups);
    RootChain(t, SortedChildren(groups), Nodes(groups), n);
  }

  lemma RootChain(t: GroupTreeItem, children: map<string, seq<GroupItem>>, nodes: map<string, GroupItem>, n: GroupTreeItem)
    requires Conforms(t, children, 0) && ChildLinks(children, nodes) && InTree(t, n) && t.group.id == RootId
    ensures Ancestor(nodes, n.group.id, n.depth) == RootId
    ensures forall k :: 0 <= k < n.depth ==> Ancestor(nodes, n.group.id, k) != RootId
  {
    DepthChain(t, children, 0, nodes, n);
  }

  /** Two nodes of the built tree with the same id sit at the same depth. */
  lemma SameIdSameDepth(groups: seq<GroupItem>, t: GroupTreeItem, a: GroupTreeItem, b: GroupTreeItem)
    requires UniqueIds(groups) && IsBuiltTree(groups, t) && InTree(t, a) && InTree(t, b)
    ensures a.group.id == b.group.id ==> a.depth == b.depth
  {
    BuiltDepth(groups, t, a);
    BuiltDepth(groups, t, b);
  }

  /** The children listed for one node have distinct ids. */
  lemma SiblingIdsDistinct(groups: seq<GroupItem>, k: string, i: nat, j: nat)
    requires UniqueIds(groups) && k in Nodes(groups)
    requires i < j < |SortedChildren(groups)[k]|
    ensures SortedChildren(groups)[k][i].id != SortedChildren(groups)[k][j].id
  {
    var nodes := Nodes(groups);
    var list := SortedChildren(groups)[k];
    var c := list[i];
    SortedChildrenLinks(groups);
    assert nodes[list[i].id] == list[i] && nodes[list[j].id] == list[j];
    ListedOnce(groups, k, c);
    RepeatCounts(list, i, j);
  }

  /** A record listed under a node is listed there once. */
  lemma ListedOnce(groups: seq<GroupItem>, k: string, c: GroupItem)
    requires UniqueIds(groups) && k in Nodes(groups) && c in SortedChildren(groups)[k]
    ensures multiset(SortedChildren(groups)[k])[c] == 1
  {
    var nodes := Nodes(groups);
    PinnedFirstSorts(ChildrenOf(groups, nodes, k));
    ChildrenOfCount(groups, nodes, k, c);
    var g :| 0 <= g < |groups| && groups[g] == c;
    UniqueCount(groups, g);
  }

  lemma RepeatCounts(s: seq<GroupItem>, i: nat, j: nat)
    requires i < j < |s|
    ensures s[i] == s[j] ==> multiset(s)[s[i]] >= 2
  {
    assert s == s[..j] + [s[j]] + s[j + 1..];
    assert s[i] in s[..j];
  }

  /** A child listed for a node of a conforming tree is itself a node of it. */
  lemma {:induction false} ChildInTree(t: GroupTreeItem, children: map<string, seq<GroupItem>>, d: nat, p: GroupTreeItem, i: nat)
    returns (n: GroupTreeItem)
    requires Conforms(t, children, d) && InTree(t, p) && p.group.id in children && i < |children[p.group.id]|
    ensures InTree(t, n) && n.group == children[p.group.id][i]
    decreases t
  {
    if p == t {
      n := t.childrenNodes[i];
      assert InTree(n, n);
    } else {
      var j :| 0 <= j < |t.childrenNodes| && InTree(t.childrenNodes[j], p);
      n := ChildInTree(t.childrenNodes[j], children, d + 1, p, i);
    }
  }

  /** A known id whose steps up reach the root has a node in the built tree. */
  lemma {:induction false} ReachedInTree(groups: seq<GroupItem>, t: GroupTreeItem, x: string, k: nat)
    returns (n: GroupTreeItem)
    requires UniqueIds(groups) && IsBuiltTree(groups, t)
    requires x in Nodes(groups) && Ancestor(Nodes(groups), x, k) == RootId
    ensures InTree(t, n) && n.group.id == x
    decreases k
  {
    if x == RootId {
      n := t;
    } else {
      var p := Up(Nodes(groups), x);
      var up := ReachedInTree(groups, t, p, k - 1);
      var i := ListedUnderUp(groups, x);
      n := ChildInTree(t, SortedChildren(groups), 0, up, i);
    }
  }

  /** A known id other than the root is listed under the node one step up. */
  lemma ListedUnderUp(groups: seq<GroupItem>, x: string) returns (i: nat)
    requires UniqueIds(groups) && x in Nodes(groups) && x != RootId
    ensures var p := Up(Nodes(groups), x);
      p in SortedChildren(groups) && i < |SortedChildren(groups)[p]| && SortedChildren(groups)[p][i] == Nodes(groups)[x]
  {
    var nodes := Nodes(groups);
    var p := Up(nodes, x);
    var g := nodes[x];
    assert g.id == x;
    assert g == IndexById(groups)[x];
    var listed := ChildrenOf(groups, nodes, p);
    ChildrenOfCount(groups, nodes, p, g);
    PinnedFirstSorts(listed);
    var ch := SortedChildren(groups);
    assert g in multiset(ch[p]);
    i :| 0 <= i < |ch[p]| && ch[p][i] == g;
  }

  /**
   * Coverage: a known group id has a node in the built tree exactly when
   * stepping up from it (to the parent if known, else to the root) reaches
   * the root.
   */
  lemma BuiltTreeCoverage(groups: seq<GroupItem>, t: GroupTreeItem, x: string)
    requires UniqueIds(groups) && IsBuiltTree(groups, t) && x in Nodes(groups)
    ensures (exists n :: InTree(t, n) && n.group.id == x) ==> exists k: nat :: Ancestor(Nodes(groups), x, k) == RootId
    ensures (exists k: nat :: Ancestor(Nodes(groups), x, k) == RootId) ==> exists n :: InTree(t, n) && n.group.id == x
  {
    if k: nat :| Ancestor(Nodes(groups), x, k) == RootId {
      var n := ReachedInTree(groups, t, x, k);
    }
    if n :| InTree(t, n) && n.group.id == x {
      BuiltDepth(groups, t, n);
    }
  }
}
