/**
 What runs of updates do to the stored tree. An update reads cached sibling hashes and
 never refreshes the copies its own path's siblings keep, so between two appends only the
 last update shows in the stored root.
 */
module MerkleRuns {
  import opened Prelude
  import opened MerkleTree

  datatype Update = Update(leaf: nat, value: nat)

  // ----- appends only -----

  /**
     A tree that only appends have touched holds, in every record, the hashes computed from
     scratch over its leaves: the node's own and its sibling's.
   */
  lemma FreshTreeIsTheScratchTree(c: TreeConfig, t: Nodes, slots: seq<Slot>, k: Key)
    requires c.Shape(t, |slots|) && HoldsSlots(t, slots) && c.HashOk(t) && c.Fresh(t)
    ensures k in t <==> k.level <= c.levels && k.index < Width(|slots|, k.level)
    ensures k in t ==> t[k].hash == c.SubRoot(Hashes(slots), k.level, k.index)
    ensures k in t && k.level < c.levels ==>
              t[k].siblingHash == Some(c.SubRoot(Hashes(slots), k.level, Sibling(k.index)))
  {
    c.LeafHashesOfSlots(t, slots);
    if k in t {
      c.StoredHashIsSubRoot(t, |slots|, k.level, k.index);
      c.StoredHashIsSubRoot(t, |slots|, k.level, Sibling(k.index));
      assert c.NodeFresh(t, k);
    }
  }

  /** In such a tree, folding the cached copies along any leaf's path gives the stored root. */
  lemma StoredPathFoldsToStoredRoot(c: TreeConfig, t: Nodes, slots: seq<Slot>, i: nat)
    requires c.Shape(t, |slots|) && HoldsSlots(t, slots) && c.HashOk(t) && c.Fresh(t) && i < |slots|
    ensures c.PathStored(t, i) && Key(c.levels, 0) in t
    ensures c.Fold(slots[i].hash, i, c.CachedPath(t, i), c.levels) == t[Key(c.levels, 0)].hash
  {
    c.ShapeStoresPaths(t, |slots|, i);
    FreshPathReachesStoredHashes(c, t, |slots|, i, c.levels);
  }

  // ----- one update -----

  lemma PathHashesAfterUpdate(c: TreeConfig, t: Nodes, n: nat, i: nat, v: nat, level: nat)
    requires c.Shape(t, n) && i < n && c.PathStored(t, i) && c.PathFresh(t, i) && level < c.levels
    ensures
      var s, p, top := c.SetPath(t, i, v, c.levels), Up(i, level), Key(level + 1, Up(i, level + 1));
      && (top in s ==> s[top].hash == c.Combine(p, c.HashAt(s, Key(level, p)), c.CachedPath(t, i)[level]))
      && c.HashAt(s, Key(level, Sibling(p))) == c.CachedPath(t, i)[level]
  {
    hide c.SetPath, c.Shape, c.Climb, c.CachedPath, Up, c.Combine;
    var node, top := Key(level, Up(i, level)), Key(level + 1, Up(i, level + 1));
    c.AncestorIsStored(t, n, i, level);
    c.HashAfterSetPath(t, i, v, c.levels, node);
    c.HashAfterSetPath(t, i, v, c.levels, SiblingKey(node));
    c.HashAfterSetPath(t, i, v, c.levels, top);
    c.ClimbStep(t, i, v, level);
    c.CachedPathAt(t, i, level);
    PathHasOneNode(i, node, node);
    PathHasOneNode(i, SiblingKey(node), node);
    PathHasOneNode(i, top, top);
    assert c.NodeFresh(t, node);
  }

  /** A node on a fresh path combines its children after the update. */
  lemma PathNodeStaysOk(c: TreeConfig, t: Nodes, n: nat, i: nat, v: nat, level: nat)
    requires c.Shape(t, n) && i < n && c.PathStored(t, i) && c.PathFresh(t, i) && level < c.levels
    ensures c.NodeHashOk(c.SetPath(t, i, v, c.levels), Key(level + 1, Up(i, level + 1)))
  {
    PathHashesAfterUpdate(c, t, n, i, v, level);
    c.ParentOfCombined(c.SetPath(t, i, v, c.levels), Up(i, level), level);
    assert Up(i, level + 1) == Up(i, level) / 2;
  }

  lemma OtherNodeStaysOk(c: TreeConfig, t: Nodes, i: nat, v: nat, k: Key)
    requires c.PathStored(t, i) && c.NodeHashOk(t, k) && k.index != Up(i, k.level)
    ensures c.NodeHashOk(c.SetPath(t, i, v, c.levels), k)
  {
    hide c.SetPath;
    if k.level > 0 {
      c.HashAfterSetPath(t, i, v, c.levels, Key(k.level - 1, 2 * k.index));
      c.HashAfterSetPath(t, i, v, c.levels, Key(k.level - 1, 2 * k.index + 1));
      c.HashAfterSetPath(t, i, v, c.levels, k);
    }
  }

  lemma FreshUpdateKeepsHashOk(c: TreeConfig, t: Nodes, n: nat, i: nat, v: nat)
    requires c.Shape(t, n) && c.HashOk(t) && i < n && c.PathStored(t, i) && c.PathFresh(t, i)
    ensures c.HashOk(c.SetPath(t, i, v, c.levels))
  {
    hide c.SetPath, c.NodeHashOk;
    forall k ensures c.NodeHashOk(c.SetPath(t, i, v, c.levels), k) {
      assert c.NodeHashOk(t, k);
      if k.index != Up(i, k.level) {
        OtherNodeStaysOk(c, t, i, v, k);
      } else if 0 < k.level <= c.levels {
        PathNodeStaysOk(c, t, n, i, v, k.level - 1);
      } else {
        NothingToCheck(c, t, n, i, v, k);
      }
    }
  }

  lemma NothingToCheck(c: TreeConfig, t: Nodes, n: nat, i: nat, v: nat, k: Key)
    requires c.Shape(t, n) && c.PathStored(t, i) && (k.level == 0 || k.level > c.levels)
    ensures c.NodeHashOk(c.SetPath(t, i, v, c.levels), k)
  {
  }

  /** An update keeps the stored hashes right if, and with a collision-free hash only if, its path was fresh. */
  lemma UpdateKeepsHashOkExactlyWhenPathFresh(c: TreeConfig, t: Nodes, n: nat, i: nat, v: nat)
    requires c.Shape(t, n) && c.HashOk(t) && i < n && c.PathStored(t, i)
    ensures c.PathFresh(t, i) ==> c.HashOk(c.SetPath(t, i, v, c.levels))
    ensures c.Injective() && c.HashOk(c.SetPath(t, i, v, c.levels)) ==> c.PathFresh(t, i)
  {
    var s := c.SetPath(t, i, v, c.levels);
    if c.PathFresh(t, i) {
      FreshUpdateKeepsHashOk(c, t, n, i, v);
    }
    if c.HashOk(s) {
      c.SetPathKeepsShape(t, n, i, v);
      c.SetPathReplacesLeaf(t, n, i, v);
      c.StoredHashIsSubRoot(s, n, c.levels, 0);
      c.UpdatedRootIsRightExactlyWhenPathFresh(t, n, i, v);
    }
  }

  /** Along a fresh path, climbing from the stored leaf reaches every stored hash, up to the root. */
  lemma FreshPathReachesStoredHashes(c: TreeConfig, t: Nodes, n: nat, i: nat, level: nat)
    requires c.Shape(t, n) && c.HashOk(t) && i < n && c.PathStored(t, i) && c.PathFresh(t, i) && level <= c.levels
    ensures Key(level, Up(i, level)) in t
    ensures c.Climb(t, i, c.HashAt(t, Key(0, i)), level) == t[Key(level, Up(i, level))].hash
  {
    var leaves := c.LeafHashes(t, n);
    assert leaves[i := leaves[i]] == leaves;
    c.AncestorIsStored(t, n, i, level);
    c.FreshPathAgrees(t, n, i, leaves[i]);
    c.FoldIsSubRoot(leaves, leaves[i], i, c.CachedPath(t, i), level);
    c.StoredHashIsSubRoot(t, n, level, Up(i, level));
  }

  /** A tree of two leaves or more has a level, below the root, with exactly two nodes. */
  lemma {:induction false} SomeLevelHasTwoNodes(n: nat, levels: nat) returns (level: nat)
    requires n >= 2 && Width(n, levels) <= 1
    ensures level < levels && Width(n, level) == 2
  {
    if Width(n, levels - 1) <= 1 {
      level := SomeLevelHasTwoNodes(n, levels - 1);
    } else {
      level := levels - 1;
    }
  }

  /** An update that changes its leaf leaves a stale copy behind, unless the leaf is alone. */
  lemma UpdateKeepsFreshExactlyWhenTrivial(c: TreeConfig, t: Nodes, n: nat, i: nat, v: nat)
    requires c.Shape(t, n) && c.HashOk(t) && c.Fresh(t) && i < n && c.PathStored(t, i)
    ensures n == 1 || v == c.HashAt(t, Key(0, i)) ==> c.Fresh(c.SetPath(t, i, v, c.levels))
    ensures c.Injective() && c.Fresh(c.SetPath(t, i, v, c.levels)) ==> n == 1 || v == c.HashAt(t, Key(0, i))
  {
    var s := c.SetPath(t, i, v, c.levels);
    if v == c.HashAt(t, Key(0, i)) {
      UpdateToSameValueIsIdle(c, t, n, i);
    } else if n == 1 {
      LoneLeafStaysFresh(c, t, i, v);
    } else if c.Injective() {
      WidthIsBounded(n, c.levels, c.levels);
      var level := SomeLevelHasTwoNodes(n, c.levels);
      UpdateLeavesStaleCopy(c, t, n, i, v, level);
    }
  }

  lemma UpdateToSameValueIsIdle(c: TreeConfig, t: Nodes, n: nat, i: nat)
    requires c.Shape(t, n) && c.HashOk(t) && i < n && c.PathStored(t, i) && c.PathFresh(t, i)
    ensures c.SetPath(t, i, c.HashAt(t, Key(0, i)), c.levels) == t
  {
    hide c.Climb, c.HashOk, c.Shape;
    var s := c.SetPath(t, i, c.HashAt(t, Key(0, i)), c.levels);
    forall k | k in t ensures s[k] == t[k] {
      if k.level <= c.levels && k.index == Up(i, k.level) { FreshPathReachesStoredHashes(c, t, n, i, k.level); }
    }
  }

  lemma PathSiblingIsStored(c: TreeConfig, t: Nodes, n: nat, i: nat, level: nat)
    requires c.Shape(t, n) && i < n && level < c.levels && Width(n, level) == 2
    ensures Key(level, Up(i, level)) in t && SiblingKey(Key(level, Up(i, level))) in t
  {
    UpIsInWidth(i, n, level);
  }

  /** Where the changed path has a stored sibling, that sibling keeps the old hash. */
  lemma UpdateLeavesStaleCopy(c: TreeConfig, t: Nodes, n: nat, i: nat, v: nat, level: nat)
    requires c.Shape(t, n) && c.HashOk(t) && c.Fresh(t) && i < n && c.PathStored(t, i) && c.Injective()
    requires v != c.HashAt(t, Key(0, i)) && level < c.levels && Width(n, level) == 2
    ensures !c.Fresh(c.SetPath(t, i, v, c.levels))
  {
    hide c.Injective, c.SubRoot, c.HashOk, c.Shape, c.SetPath;
    var s, node := c.SetPath(t, i, v, c.levels), Key(level, Up(i, level));
    PathSiblingIsStored(c, t, n, i, level);
    SiblingOfSibling(node);
    FreshPathReachesStoredHashes(c, t, n, i, level);
    c.HashAfterSetPath(t, i, v, c.levels, node);
    c.SetPathTouchesHashesOnly(t, i, v, c.levels);
    if c.Climb(t, i, v, level) == c.Climb(t, i, c.HashAt(t, Key(0, i)), level) {
      c.FoldDetermines(v, c.HashAt(t, Key(0, i)), i, c.CachedPath(t, i), level);
    }
    assert c.NodeFresh(t, SiblingKey(node)) && !c.NodeFresh(s, SiblingKey(node));
  }

  lemma LoneLeafStaysFresh(c: TreeConfig, t: Nodes, i: nat, v: nat)
    requires c.Shape(t, 1) && c.Fresh(t) && i < 1 && c.PathStored(t, i)
    ensures c.Fresh(c.SetPath(t, i, v, c.levels))
  {
    c.SetPathTouchesHashesOnly(t, i, v, c.levels);
    forall k ensures c.NodeFresh(c.SetPath(t, i, v, c.levels), k) {
      assert c.NodeFresh(t, k);
      if k in t {
        LoneLeafHasNoSiblings(k.level);
        c.HashAfterSetPath(t, i, v, c.levels, SiblingKey(k));
      }
    }
  }

  lemma {:induction false} LoneLeafHasNoSiblings(level: nat)
    ensures Width(1, level) == 1 && Up(0, level) == 0
  {
    if level > 0 { LoneLeafHasNoSiblings(level - 1); }
  }

  // ----- runs of updates -----

  ghost predicate SameCopies(t: Nodes, s: Nodes) {
    s.Keys == t.Keys && forall k | k in t :: s[k] == t[k].(hash := s[k].hash)
  }

  ghost predicate Updatable(c: TreeConfig, t: Nodes, n: nat, updates: seq<Update>) {
    c.Shape(t, n) && forall u | u in updates :: u.leaf < n
  }

  /** The records after a run of updates with no append in between. */
  ghost function AfterUpdates(c: TreeConfig, t: Nodes, n: nat, updates: seq<Update>): (s: Nodes)
    requires Updatable(c, t, n, updates)
    ensures SameCopies(t, s) && c.Shape(s, n)
    decreases |updates|
  {
    if updates == [] then t
    else
      var last := updates[|updates| - 1];
      var before := AfterUpdates(c, t, n, updates[..|updates| - 1]);
      c.ShapeStoresPaths(before, n, last.leaf);
      c.SetPathTouchesHashesOnly(before, last.leaf, last.value, c.levels);
      c.SetPathKeepsShape(before, n, last.leaf, last.value);
      c.SetPath(before, last.leaf, last.value, c.levels)
  }

  lemma AfterOneMoreUpdate(c: TreeConfig, t: Nodes, n: nat, updates: seq<Update>, u: Update)
    requires Updatable(c, t, n, updates + [u]) && Updatable(c, t, n, updates)
    ensures c.PathStored(AfterUpdates(c, t, n, updates), u.leaf)
    ensures AfterUpdates(c, t, n, updates + [u])
            == c.SetPath(AfterUpdates(c, t, n, updates), u.leaf, u.value, c.levels)
  {
    assert (updates + [u])[..|updates|] == updates && u in updates + [u];
    c.ShapeStoresPaths(AfterUpdates(c, t, n, updates), n, u.leaf);
  }

  function Written(leaves: seq<nat>, updates: seq<Update>): (result: seq<nat>)
    requires forall u | u in updates :: u.leaf < |leaves|
    ensures |result| == |leaves|
    decreases |updates|
  {
    if updates == [] then leaves
    else
      var last := updates[|updates| - 1];
      Written(leaves, updates[..|updates| - 1])[last.leaf := last.value]
  }

  lemma {:induction false} UpdatesWriteTheirLeaves(c: TreeConfig, t: Nodes, n: nat, updates: seq<Update>)
    requires Updatable(c, t, n, updates)
    ensures c.LeafHashes(AfterUpdates(c, t, n, updates), n) == Written(c.LeafHashes(t, n), updates)
    decreases |updates|
  {
    if updates != [] {
      var last, earlier := updates[|updates| - 1], updates[..|updates| - 1];
      UpdatesWriteTheirLeaves(c, t, n, earlier);
      c.ShapeStoresPaths(AfterUpdates(c, t, n, earlier), n, last.leaf);
      c.SetPathReplacesLeaf(AfterUpdates(c, t, n, earlier), n, last.leaf, last.value);
    }
  }

  lemma CopiesDecidePath(c: TreeConfig, t: Nodes, s: Nodes, i: nat)
    requires SameCopies(t, s) && c.PathStored(t, i) && c.PathStored(s, i)
    ensures c.CachedPath(s, i) == c.CachedPath(t, i)
  {
    forall level | 0 <= level < c.levels ensures c.CachedAt(s, i, level) == c.CachedAt(t, i, level) {
      assert OnPath(i, Key(level, Up(i, level)));
    }
  }

  /**
     Of several updates with no append in between only the last one shows in the stored root,
     from any tree, also one with stale copies and wrong hashes: the root is the one that the
     last update alone would have left.
   */
  lemma OnlyTheLastUpdateShows(c: TreeConfig, t: Nodes, n: nat, updates: seq<Update>)
    requires Updatable(c, t, n, updates) && updates != []
    ensures Key(c.levels, 0) in AfterUpdates(c, t, n, updates)
    ensures var last := updates[|updates| - 1];
            && c.PathStored(t, last.leaf) && Key(c.levels, 0) in c.SetPath(t, last.leaf, last.value, c.levels)
            && AfterUpdates(c, t, n, updates)[Key(c.levels, 0)].hash
               == c.SetPath(t, last.leaf, last.value, c.levels)[Key(c.levels, 0)].hash
  {
    hide c.Shape, c.CachedPath;
    var last := updates[|updates| - 1];
    var before := AfterUpdates(c, t, n, updates[..|updates| - 1]);
    c.ShapeStoresPaths(before, n, last.leaf);
    c.ShapeStoresPaths(t, n, last.leaf);
    CopiesDecidePath(c, t, before, last.leaf);
  }

  /** From a tree whose copies are all fresh this is the root of the original leaves with the last update alone. */
  lemma FreshTreeShowsTheLastUpdate(c: TreeConfig, t: Nodes, n: nat, updates: seq<Update>)
    requires Updatable(c, t, n, updates) && c.HashOk(t) && c.Fresh(t) && updates != []
    ensures Key(c.levels, 0) in AfterUpdates(c, t, n, updates)
    ensures var last := updates[|updates| - 1];
            AfterUpdates(c, t, n, updates)[Key(c.levels, 0)].hash
            == c.Root(c.LeafHashes(t, n)[last.leaf := last.value])
  {
    hide c.Shape, c.CachedPath;
    var last := updates[|updates| - 1];
    OnlyTheLastUpdateShows(c, t, n, updates);
    c.UpdatedRootIsRightExactlyWhenPathFresh(t, n, last.leaf, last.value);
  }

  /** So the stored root is that of the current leaves exactly when the earlier updates changed nothing else. */
  lemma RootIsRightExactlyWhenEarlierUpdatesVanish(c: TreeConfig, t: Nodes, n: nat, updates: seq<Update>)
    requires Updatable(c, t, n, updates) && c.HashOk(t) && c.Fresh(t) && updates != [] && c.Injective()
    ensures Key(c.levels, 0) in AfterUpdates(c, t, n, updates)
    ensures var last, s := updates[|updates| - 1], AfterUpdates(c, t, n, updates);
            s[Key(c.levels, 0)].hash == c.Root(c.LeafHashes(s, n))
            <==> Written(c.LeafHashes(t, n), updates) == c.LeafHashes(t, n)[last.leaf := last.value]
  {
    var last := updates[|updates| - 1];
    FreshTreeShowsTheLastUpdate(c, t, n, updates);
    UpdatesWriteTheirLeaves(c, t, n, updates);
    c.RootDeterminesLeaves(c.LeafHashes(AfterUpdates(c, t, n, updates), n),
                           c.LeafHashes(t, n)[last.leaf := last.value]);
  }

  /** A leaf that only an earlier update replaced can still be proved against the stored root; its new value cannot. */
  lemma EarlierUpdateIsUndoneForProofs(c: TreeConfig, t: Nodes, n: nat, updates: seq<Update>, j: nat)
    requires Updatable(c, t, n, updates) && c.HashOk(t) && c.Fresh(t) && updates != []
    requires j < n && j != updates[|updates| - 1].leaf
    ensures Key(c.levels, 0) in AfterUpdates(c, t, n, updates)
    ensures var root := AfterUpdates(c, t, n, updates)[Key(c.levels, 0)].hash;
            && c.Provable(root, c.LeafHashes(t, n)[j], j)
            && (c.Injective() ==> forall v :: c.Provable(root, v, j) ==> v == c.LeafHashes(t, n)[j])
  {
    hide c.HashOk, c.Fresh, c.Provable, c.Injective, c.SubRoot, AfterUpdates, SameCopies;
    var last := updates[|updates| - 1];
    var shown := c.LeafHashes(t, n)[last.leaf := last.value];
    FreshTreeShowsTheLastUpdate(c, t, n, updates);
    forall v: nat
      ensures v == c.LeafHashes(t, n)[j] ==> c.Provable(c.Root(shown), v, j)
      ensures c.Injective() && c.Provable(c.Root(shown), v, j) ==> v == c.LeafHashes(t, n)[j]
    {
      c.ProvableExactlyTheLeaf(shown, v, j);
    }
  }
}
