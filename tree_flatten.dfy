/**
 * The list the sidebar renders (`flattenTree` in Home.tsx): the nodes of a
 * forest in pre-order, each node followed by all of its descendants.
 */
module TreeFlatten {
  import opened GroupTree

  /** The pre-order listing of a forest. */
  function Flatten(ts: seq<GroupTreeItem>): seq<GroupTreeItem>
    decreases ts
  {
    if ts == [] then [] else Preorder(ts[0]) + Flatten(ts[1..])
  }

  /** The pre-order listing of one tree: its top node, then its children's listings in order. */
  function Preorder(t: GroupTreeItem): seq<GroupTreeItem>
    decreases t
  {
    [t] + Flatten(t.childrenNodes)
  }

  /** `flattenTree`: each node pushed, then the flattening of its children appended. */
  method FlattenTree(nodes: seq<GroupTreeItem>) returns (result: seq<GroupTreeItem>)
    ensures result == Flatten(nodes)
    decreases nodes
  {
    result := [];
    var i := 0;
    while i < |nodes|
      invariant 0 <= i <= |nodes|
      invariant result == Flatten(nodes[..i])
    {
      var node := nodes[i];
      result := result + [node];
      if |node.childrenNodes| > 0 {
        var sub := FlattenTree(node.childrenNodes);
        result := result + sub;
      }
      FlattenSnoc(nodes[..i], node);
      assert nodes[..i + 1] == nodes[..i] + [node];
      i := i + 1;
    }
    assert nodes[..|nodes|] == nodes;
  }

  lemma {:induction false} FlattenSnoc(ts: seq<GroupTreeItem>, t: GroupTreeItem)
    ensures Flatten(ts + [t]) == Flatten(ts) + Preorder(t)
    decreases ts
  {
    if ts == [] {
      assert [t][1..] == [];
    } else {
      assert (ts + [t])[1..] == ts[1..] + [t];
      FlattenSnoc(ts[1..], t);
    }
  }

  /** The listing holds exactly the nodes of the trees. */
  lemma {:induction false} FlattenMembers(ts: seq<GroupTreeItem>, n: GroupTreeItem)
    ensures n in Flatten(ts) <==> exists j :: 0 <= j < |ts| && InTree(ts[j], n)
    decreases ts, 1
  {
    if ts != [] {
      PreorderMembers(ts[0], n);
      FlattenMembers(ts[1..], n);
      if exists j :: 0 <= j < |ts| && InTree(ts[j], n) {
        var j :| 0 <= j < |ts| && InTree(ts[j], n);
        if j > 0 {
          assert ts[1..][j - 1] == ts[j];
        }
      }
      if exists j :: 0 <= j < |ts[1..]| && InTree(ts[1..][j], n) {
        var j :| 0 <= j < |ts[1..]| && InTree(ts[1..][j], n);
        assert ts[j + 1] == ts[1..][j];
      }
    }
  }

  /** One tree's listing holds exactly its nodes. */
  lemma {:induction false} PreorderMembers(t: GroupTreeItem, n: GroupTreeItem)
    ensures n in Preorder(t) <==> InTree(t, n)
    decreases t, 0
  {
    FlattenMembers(t.childrenNodes, n);
  }

  /** The listing's length is the number of nodes in the forest. */
  function ForestSize(ts: seq<GroupTreeItem>): nat
    decreases ts
  {
    if ts == [] then 0 else 1 + ForestSize(ts[0].childrenNodes) + ForestSize(ts[1..])
  }

  lemma {:induction false} FlattenLength(ts: seq<GroupTreeItem>)
    ensures |Flatten(ts)| == ForestSize(ts)
    decreases ts
  {
    if ts != [] {
      FlattenLength(ts[0].childrenNodes);
      FlattenLength(ts[1..]);
    }
  }

  /** No two entries of a listing carry the same group id. */
  predicate NoDupIds(f: seq<GroupTreeItem>) {
    forall i, j :: 0 <= i < j < |f| ==> f[i].group.id != f[j].group.id
  }

  lemma NoDupConcat(a: seq<GroupTreeItem>, b: seq<GroupTreeItem>)
    requires NoDupIds(a) && NoDupIds(b)
    requires forall x, y :: x in a && y in b ==> x.group.id != y.group.id
    ensures NoDupIds(a + b)
  {
    var c := a + b;
    forall i, j | 0 <= i < j < |c| ensures c[i].group.id != c[j].group.id {
      if j < |a| {
        assert c[i] == a[i] && c[j] == a[j];
      } else if i >= |a| {
        assert c[i] == b[i - |a|] && c[j] == b[j - |a|];
      } else {
        assert c[i] == a[i] && c[j] == b[j - |a|];
      }
    }
  }

  /** The listing of a node of the built tree names each group once. */
  lemma {:induction false} PreorderNoDup(groups: seq<GroupItem>, t: GroupTreeItem, s: GroupTreeItem)
    requires UniqueIds(groups) && IsBuiltTree(groups, t) && InTree(t, s)
    ensures NoDupIds(Preorder(s))
    decreases s, |s.childrenNodes| + 2
  {
    ChildrenNoDup(groups, t, s, 0);
    assert s.childrenNodes[0..] == s.childrenNodes;
    var rest := Flatten(s.childrenNodes);
    forall y | y in rest ensures s.group.id != y.group.id {
      FlattenMembers(s.childrenNodes, y);
      var j :| 0 <= j < |s.childrenNodes| && InTree(s.childrenNodes[j], y);
      BelowIsDeeper(groups, t, s, j, y);
      InTreeTrans(s, s.childrenNodes[j], y);
      InTreeTrans(t, s, y);
      SameIdSameDepth(groups, t, s, y);
    }
    NoDupConcat([s], rest);
  }

  /** A node below child `j` of `s` (in the built tree) is deeper than `s`. */
  lemma BelowIsDeeper(groups: seq<GroupItem>, t: GroupTreeItem, s: GroupTreeItem, j: nat, y: GroupTreeItem)
    requires IsBuiltTree(groups, t) && InTree(t, s) && j < |s.childrenNodes| && InTree(s.childrenNodes[j], y)
    ensures Conforms(s.childrenNodes[j], SortedChildren(groups), s.depth + 1)
    ensures y.depth > s.depth
  {
    SubtreeConforms(t, SortedChildren(groups), 0, s);
    var c := s.childrenNodes[j];
    SubtreeConforms(c, SortedChildren(groups), s.depth + 1, y);
    DepthBelow(c, SortedChildren(groups), s.depth + 1, y);
  }

  lemma {:induction false} DepthBelow(t: GroupTreeItem, children: map<string, seq<GroupItem>>, d: nat, n: GroupTreeItem)
    requires Conforms(t, children, d) && InTree(t, n)
    ensures n.depth >= d
    decreases t
  {
    if n != t {
      var j :| 0 <= j < |t.childrenNodes| && InTree(t.childrenNodes[j], n);
      DepthBelow(t.childrenNodes[j], children, d + 1, n);
    }
  }

  /** The listing of the children of `s` from position `m` on names each group once. */
  lemma {:induction false} ChildrenNoDup(groups: seq<GroupItem>, t: GroupTreeItem, s: GroupTreeItem, m: nat)
    requires UniqueIds(groups) && IsBuiltTree(groups, t) && InTree(t, s) && m <= |s.childrenNodes|
    ensures NoDupIds(Flatten(s.childrenNodes[m..]))
    decreases s, |s.childrenNodes| - m + 1
  {
    var kids := s.childrenNodes;
    if m < |kids| {
      var c := kids[m];
      assert InTree(c, c);
      assert InTree(s, c);
      InTreeTrans(t, s, c);
      PreorderNoDup(groups, t, c);
      ChildrenNoDup(groups, t, s, m + 1);
      assert kids[m..][1..] == kids[m + 1..];
      var head := Preorder(c);
      var rest := Flatten(kids[m + 1..]);
      forall x, y | x in head && y in rest ensures x.group.id != y.group.id {
        PreorderMembers(c, x);
        FlattenMembers(kids[m + 1..], y);
        var j' :| 0 <= j' < |kids[m + 1..]| && InTree(kids[m + 1..][j'], y);
        var j := m + 1 + j';
        assert kids[j] == kids[m + 1..][j'];
        SiblingsApart(groups, t, s, m, j, x, y);
      }
      NoDupConcat(head, rest);
    }
  }

  /** Nodes below two different children of `s` carry different ids. */
  lemma SiblingsApart(groups: seq<GroupItem>, t: GroupTreeItem, s: GroupTreeItem, i: nat, j: nat, x: GroupTreeItem, y: GroupTreeItem)
    requires UniqueIds(groups) && IsBuiltTree(groups, t) && InTree(t, s)
    requires i < j < |s.childrenNodes| && InTree(s.childrenNodes[i], x) && InTree(s.childrenNodes[j], y)
    ensures x.group.id != y.group.id
  {
    var ch := SortedChildren(groups);
    var nodes := Nodes(groups);
    var a, b := s.childrenNodes[i], s.childrenNodes[j];
    BelowIsDeeper(groups, t, s, i, x);
    BelowIsDeeper(groups, t, s, j, y);
    SortedChildrenLinks(groups);
    DepthChain(a, ch, s.depth + 1, nodes, x);
    DepthChain(b, ch, s.depth + 1, nodes, y);
    assert InTree(s, a) && InTree(s, b);
    InTreeTrans(s, a, x);
    InTreeTrans(s, b, y);
    InTreeTrans(t, s, x);
    InTreeTrans(t, s, y);
    SameIdSameDepth(groups, t, x, y);
    SubtreeConforms(t, ch, 0, s);
    assert a.group == ch[s.group.id][i] && b.group == ch[s.group.id][j];
    SiblingIdsDistinct(groups, s.group.id, i, j);
  }

  /**
   * The rendered list of the built tree: every entry is a node of the tree,
   * every node is listed, and no group id is listed twice.
   */
  lemma RenderedListNamesEachGroupOnce(groups: seq<GroupItem>, t: GroupTreeItem)
    requires UniqueIds(groups) && IsBuiltTree(groups, t)
    ensures forall n :: n in Flatten([t]) <==> InTree(t, n)
    ensures NoDupIds(Flatten([t]))
  {
    forall n ensures n in Flatten([t]) <==> InTree(t, n) {
      FlattenMembers([t], n);
    }
    assert [t][1..] == [];
    assert Flatten([t]) == Preorder(t);
    assert InTree(t, t);
    PreorderNoDup(groups, t, t);
  }
}
