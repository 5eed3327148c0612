/**
 * The parent-chain walk of the group table (`while curr and curr !=
 * 'root': ... curr = groups.get(curr, {}).get('parent_id')` in
 * `api_group_update`), acyclicity of the table, and the proofs that group
 * update, delete and create keep a table acyclic.
 *
 * A walk is followed together with the set of groups it has passed, so that
 * every definition here is total: a walk that comes back to a group it has
 * passed is cut there.
 */
module ParentWalk {
  import opened Wrappers
  import opened StoreData

  /** Where the walk ends: no value, the empty string, or `root`. */
  predicate Stops(c: Option<string>) {
    c.None? || c.value == "" || c.value == RootId
  }

  /** `groups.get(x, {}).get('parent_id')`. */
  function Next(g: map<string, Group>, x: string): Option<string> {
    if x in g then g[x].parentId else None
  }

  /** The walk from `c` stops without coming back to a group of `seen` or to one it passed. */
  predicate Ends(g: map<string, Group>, c: Option<string>, seen: set<string>)
    decreases g.Keys - seen
  {
    Stops(c) || (c.value !in seen && (c.value in g ==> Ends(g, Next(g, c.value), seen + {c.value})))
  }

  /** The walk from `c` reaches `y` before it stops or comes back to a group of `seen` or one it passed. */
  predicate Hits(g: map<string, Group>, c: Option<string>, y: string, seen: set<string>)
    decreases g.Keys - seen
  {
    !Stops(c) && c.value !in seen
    && (c.value == y || (c.value in g && Hits(g, Next(g, c.value), y, seen + {c.value})))
  }

  /** Every group's parent chain stops: the table holds no cycle. */
  predicate Acyclic(g: map<string, Group>) {
    forall k :: k in g ==> Ends(g, Some(k), {})
  }

  /** `h` has the same groups and parent links as `g`, except perhaps at `z`. */
  ghost predicate AgreeOff(g: map<string, Group>, h: map<string, Group>, z: string) {
    (forall x :: x != z ==> (x in g <==> x in h))
    && (forall x :: x != z && x in g ==> Next(h, x) == Next(g, x))
  }

  /** The target of a walk is never a stopping value. */
  lemma {:induction false} HitsTarget(g: map<string, Group>, c: Option<string>, y: string, seen: set<string>)
    requires Hits(g, c, y, seen)
    ensures !Stops(Some(y))
    decreases g.Keys - seen
  {
    if c.value != y {
      HitsTarget(g, Next(g, c.value), y, seen + {c.value});
    }
  }

  /** Forgetting passed groups keeps a hit. */
  lemma {:induction false} HitsShrink(g: map<string, Group>, c: Option<string>, y: string, big: set<string>, small: set<string>)
    requires Hits(g, c, y, big) && small <= big
    ensures Hits(g, c, y, small)
    decreases g.Keys - big
  {
    if c.value != y {
      HitsShrink(g, Next(g, c.value), y, big + {c.value}, small + {c.value});
    }
  }

  /** A walk that misses `y` with fewer passed groups misses it with more. */
  lemma NoHitsGrow(g: map<string, Group>, c: Option<string>, y: string, small: set<string>, big: set<string>)
    requires !Hits(g, c, y, small) && small <= big
    ensures !Hits(g, c, y, big)
  {
    if Hits(g, c, y, big) {
      HitsShrink(g, c, y, big, small);
      assert false;
    }
  }

  /** Forgetting passed groups keeps a walk ending. */
  lemma {:induction false} EndsShrink(g: map<string, Group>, c: Option<string>, big: set<string>, small: set<string>)
    requires Ends(g, c, big) && small <= big
    ensures Ends(g, c, small)
    decreases g.Keys - big
  {
    if !Stops(c) && c.value in g {
      EndsShrink(g, Next(g, c.value), big + {c.value}, small + {c.value});
    }
  }

  /** A walk that ends avoiding `big` and hits `y` when `small` is passed also hits it when `big` is. */
  lemma {:induction false} HitsGrow(g: map<string, Group>, c: Option<string>, y: string, small: set<string>, big: set<string>)
    requires Ends(g, c, big) && small <= big && Hits(g, c, y, small)
    ensures Hits(g, c, y, big)
    decreases g.Keys - big
  {
    if c.value != y {
      HitsGrow(g, Next(g, c.value), y, small + {c.value}, big + {c.value});
    }
  }

  /**
   * A walk that ends avoiding `seen` and misses `z` also avoids every group
   * whose own walk hits `z`.
   */
  lemma {:induction false} EndsGrow(g: map<string, Group>, c: Option<string>, z: string, seen: set<string>, more: set<string>)
    requires Ends(g, c, seen) && !Hits(g, c, z, seen) && seen <= more
    requires forall t :: t in more && t !in seen ==> Hits(g, Some(t), z, {})
    ensures Ends(g, c, more)
    decreases g.Keys - seen
  {
    if !Stops(c) {
      var x := c.value;
      if x in more {
        assert Hits(g, Some(x), z, {});
        HitsGrow(g, c, z, {}, seen);
        assert false;
      }
      if x in g {
        EndsGrow(g, Next(g, x), z, seen + {x}, more + {x});
      }
    }
  }

  /** A walk that misses `z` is the same walk in any table that differs from `g` only at `z`. */
  lemma {:induction false} AvoidsSame(g: map<string, Group>, h: map<string, Group>, z: string, c: Option<string>, seen: set<string>)
    requires AgreeOff(g, h, z) && Ends(g, c, seen) && !Hits(g, c, z, seen)
    ensures Ends(h, c, seen)
    decreases g.Keys - seen
  {
    if !Stops(c) && c.value in h {
      var x := c.value;
      assert x != z && x in g;
      AvoidsSame(g, h, z, Next(g, x), seen + {x});
    }
  }

  /** A walk that reaches `z` in `g` runs into `seen` in a table agreeing with `g` off `z`, once `z` is in `seen`. */
  lemma {:induction false} HitsRevisits(g: map<string, Group>, h: map<string, Group>, z: string, c: Option<string>, past: set<string>, seen: set<string>)
    requires AgreeOff(g, h, z) && Hits(g, c, z, past) && z in seen
    ensures !Ends(h, c, seen)
    decreases g.Keys - past
  {
    var x := c.value;
    if x !in seen {
      assert x != z && x in g && x in h;
      HitsRevisits(g, h, z, Next(g, x), past + {x}, seen + {x});
    }
  }

  /** Tables with the same groups and the same parent links have the same walks. */
  lemma {:induction false} SameLinks(g: map<string, Group>, h: map<string, Group>, c: Option<string>, seen: set<string>)
    requires g.Keys == h.Keys && (forall x :: x in g ==> Next(h, x) == Next(g, x)) && Ends(g, c, seen)
    ensures Ends(h, c, seen)
    decreases g.Keys - seen
  {
    if !Stops(c) && c.value in g {
      SameLinks(g, h, Next(g, c.value), seen + {c.value});
    }
  }

  /** The table after `api_group_update` sets `gid`'s parent to `p`. */
  function SetParent(g: map<string, Group>, gid: string, p: string): (h: map<string, Group>)
    requires gid in g
    ensures h.Keys == g.Keys && AgreeOff(g, h, gid) && Next(h, gid) == Some(p)
  {
    g[gid := g[gid].(parentId := Some(p))]
  }

  /** In the updated table, a walk that used to reach `gid` goes on from `p` and still ends. */
  lemma {:induction false} ThroughNewParent(g: map<string, Group>, gid: string, p: string, c: Option<string>, seen: set<string>)
    requires gid in g && Ends(g, Some(p), {}) && !Hits(g, Some(p), gid, {})
    requires Ends(g, c, seen) && Hits(g, c, gid, seen)
    requires forall s :: s in seen ==> Hits(g, Some(s), gid, {})
    ensures Ends(SetParent(g, gid, p), c, seen)
    decreases g.Keys - seen
  {
    var h := SetParent(g, gid, p);
    var x := c.value;
    if x == gid {
      var more := seen + {gid};
      assert Hits(g, Some(gid), gid, {});
      EndsGrow(g, Some(p), gid, {}, more);
      NoHitsGrow(g, Some(p), gid, {}, more);
      AvoidsSame(g, h, gid, Some(p), more);
    } else {
      HitsShrink(g, c, gid, seen, {});
      ThroughNewParent(g, gid, p, Next(g, x), seen + {x});
    }
  }

  /** Setting a parent whose chain does not reach `gid` keeps the table acyclic. */
  lemma UpdateKeepsAcyclic(g: map<string, Group>, gid: string, p: string)
    requires Acyclic(g) && gid in g && (p == RootId || p in g)
    requires !Hits(g, Some(p), gid, {})
    ensures Acyclic(SetParent(g, gid, p))
  {
    var h := SetParent(g, gid, p);
    assert Ends(g, Some(p), {});
    forall k | k in h ensures Ends(h, Some(k), {}) {
      if Hits(g, Some(k), gid, {}) {
        ThroughNewParent(g, gid, p, Some(k), {});
      } else {
        AvoidsSame(g, h, gid, Some(k), {});
      }
    }
  }

  /** Setting a parent whose chain reaches `gid` puts `gid` on a cycle. */
  lemma UpdateMakesCycle(g: map<string, Group>, gid: string, p: string)
    requires gid in g && Hits(g, Some(p), gid, {})
    ensures !Acyclic(SetParent(g, gid, p))
  {
    var h := SetParent(g, gid, p);
    HitsTarget(g, Some(p), gid, {});
    HitsRevisits(g, h, gid, Some(p), {}, {gid});
    assert {} + {gid} == {gid};
    assert gid in h && !Ends(h, Some(gid), {});
  }

  /** The parent the children of a deleted group move to: its own parent, or `root` when it has none. */
  function ParentOrRoot(gr: Group): (p: string)
    ensures p != ""
    ensures gr.parentId.Some? && gr.parentId.value != "" ==> p == gr.parentId.value
  {
    if gr.parentId.None? || gr.parentId.value == "" then RootId else gr.parentId.value
  }

  /** The table after `api_group_delete`: `gid` removed, its children moved to its parent. */
  function Reparented(g: map<string, Group>, gid: string): map<string, Group>
    requires gid in g
  {
    var p := ParentOrRoot(g[gid]);
    map k | k in g && k != gid :: if g[k].parentId == Some(gid) then g[k].(parentId := Some(p)) else g[k]
  }

  /** In the table without `gid`, a walk skips `gid` and still ends. */
  lemma {:induction false} SkipsDeleted(g: map<string, Group>, gid: string, c: Option<string>, seen: set<string>)
    requires gid in g && !Stops(Some(gid)) && Ends(g, c, seen) && c != Some(gid)
    ensures Ends(Reparented(g, gid), c, seen)
    decreases g.Keys - seen
  {
    var h := Reparented(g, gid);
    if !Stops(c) && c.value in g {
      var x := c.value;
      var n := Next(g, x);
      if n == Some(gid) {
        var p := ParentOrRoot(g[gid]);
        assert Next(h, x) == Some(p);
        if !Stops(Some(p)) {
          assert Next(g, gid) == Some(p);
          assert Ends(g, Some(p), seen + {x} + {gid});
          EndsShrink(g, Some(p), seen + {x} + {gid}, seen + {x});
          SkipsDeleted(g, gid, Some(p), seen + {x});
        }
      } else {
        SkipsDeleted(g, gid, n, seen + {x});
      }
    }
  }

  /** Deleting a group (other than `root`) keeps the table acyclic. */
  lemma DeleteKeepsAcyclic(g: map<string, Group>, gid: string)
    requires Acyclic(g) && gid in g && gid != "" && gid != RootId
    ensures Acyclic(Reparented(g, gid))
  {
    var h := Reparented(g, gid);
    forall k | k in h ensures Ends(h, Some(k), {}) {
      SkipsDeleted(g, gid, Some(k), {});
    }
  }

  /** No walk reaches a group that is neither in the table nor any group's parent. */
  lemma {:induction false} NoHitOfUnknown(g: map<string, Group>, y: string, c: Option<string>, seen: set<string>)
    requires y !in g && (forall x :: x in g ==> g[x].parentId != Some(y)) && c != Some(y)
    ensures !Hits(g, c, y, seen)
    decreases g.Keys - seen
  {
    if !Stops(c) && c.value !in seen && c.value in g {
      NoHitOfUnknown(g, y, Next(g, c.value), seen + {c.value});
    }
  }

  /** Adding a fresh group that nobody names as parent, under any other parent, keeps the table acyclic. */
  lemma CreateKeepsAcyclic(g: map<string, Group>, gid: string, gr: Group)
    requires Acyclic(g) && gid !in g && !Stops(Some(gid))
    requires forall x :: x in g ==> g[x].parentId != Some(gid)
    requires gr.parentId != Some(gid)
    ensures Acyclic(g[gid := gr])
  {
    var h := g[gid := gr];
    assert AgreeOff(g, h, gid);
    forall k | k in h ensures Ends(h, Some(k), {}) {
      if k == gid {
        var c := gr.parentId;
        if !Stops(c) && c.value in g {
          NoHitOfUnknown(g, gid, c, {});
          assert Hits(g, Some(gid), gid, {});
          EndsGrow(g, c, gid, {}, {gid});
          NoHitsGrow(g, c, gid, {}, {gid});
          AvoidsSame(g, h, gid, c, {gid});
        } else if !Stops(c) {
          assert c.value !in h && c.value !in {gid};
        }
        assert Ends(h, c, {gid});
        assert Next(h, gid) == c && {} + {gid} == {gid};
      } else {
        NoHitOfUnknown(g, gid, Some(k), {});
        AvoidsSame(g, h, gid, Some(k), {});
      }
    }
  }
}
