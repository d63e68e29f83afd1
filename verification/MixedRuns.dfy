/**
 What the stored tree shows after any run of appends and updates. An append refreshes the
 copies in the children of its path's nodes, an update refreshes none and reads the copies
 along its path, so a node's hash may show a subtree as it was at an earlier append.
 */
module MixedRuns {
  import opened Prelude
  import opened MerkleTree
  import opened MerkleRuns

  /** One write of the tree, with the position of the leaf it writes. */
  datatype Op = Append(leaf: nat, value: nat) | Rewrite(leaf: nat, value: nat)

  function Leaves(ops: seq<Op>): nat {
    if ops == [] then 0
    else Leaves(ops[..|ops| - 1]) + if ops[|ops| - 1].Append? then 1 else 0
  }

  /** The records after one more write, by what it does to hashes and copies. */
  ghost predicate Writes(c: TreeConfig, t: Nodes, s: Nodes, n: nat, op: Op) {
    match op
    case Append(leaf, value) => leaf == n && c.Shape(s, n + 1) && c.AppendWritten(t, s, n, value, c.levels)
    case Rewrite(leaf, value) => leaf < n && c.PathStored(t, leaf) && s == c.SetPath(t, leaf, value, c.levels)
  }

  /** The records that a run of writes leaves of an empty tree. */
  ghost predicate Reached(c: TreeConfig, t: Nodes, ops: seq<Op>)
    decreases |ops|
  {
    if ops == [] then t == map[]
    else
      var earlier := ops[..|ops| - 1];
      exists before :: c.Shape(before, Leaves(earlier)) && Reached(c, before, earlier)
                       && Writes(c, before, t, Leaves(earlier), ops[|ops| - 1])
  }

  lemma ReachedOneMore(c: TreeConfig, t: Nodes, s: Nodes, ops: seq<Op>, op: Op)
    requires c.Shape(t, Leaves(ops)) && Reached(c, t, ops) && Writes(c, t, s, Leaves(ops), op)
    ensures Reached(c, s, ops + [op]) && Leaves(ops + [op]) == Leaves(ops) + if op.Append? then 1 else 0
  {
    hide c.Shape, Writes, Reached;
    assert (ops + [op])[..|ops|] == ops;
    WritesReach(c, t, s, ops + [op]);
  }

  lemma WritesReach(c: TreeConfig, t: Nodes, s: Nodes, ops: seq<Op>)
    requires ops != []
    requires var earlier := ops[..|ops| - 1];
             && c.Shape(t, Leaves(earlier)) && Reached(c, t, earlier)
             && Writes(c, t, s, Leaves(earlier), ops[|ops| - 1])
    ensures Reached(c, s, ops)
  {
    hide c.Shape, Writes;
  }

  /** The appends that made a longer leaf list. */
  function AppendsOf(slots: seq<Slot>, longer: seq<Slot>): (ops: seq<Op>)
    requires |slots| <= |longer|
    ensures |ops| == |longer| - |slots|
  {
    seq(|longer| - |slots|, i requires 0 <= i < |longer| - |slots| => Append(|slots| + i, longer[|slots| + i].hash))
  }

  lemma AppendsInTurn(a: seq<Slot>, b: seq<Slot>, longer: seq<Slot>)
    requires a <= b <= longer
    ensures AppendsOf(a, longer) == AppendsOf(a, b) + AppendsOf(b, longer)
  {
  }

  function Rewrites(updates: seq<Update>): (ops: seq<Op>)
    ensures |ops| == |updates|
  {
    seq(|updates|, i requires 0 <= i < |updates| => Rewrite(updates[i].leaf, updates[i].value))
  }

  lemma RewritesOneMore(updates: seq<Update>, u: Update)
    ensures Rewrites(updates + [u]) == Rewrites(updates) + [Rewrite(u.leaf, u.value)]
  {
  }

  // ----- what shows -----

  predicate AppendsBelow(op: Op, node: Key) {
    op.Append? && OnPath(op.leaf, node)
  }

  /** The run up to and with the last append below the given node. */
  function LastAppendBelow(ops: seq<Op>, node: Key): (r: seq<Op>)
    ensures r <= ops
  {
    if ops == [] || AppendsBelow(ops[|ops| - 1], node) then ops
    else LastAppendBelow(ops[..|ops| - 1], node)
  }

  /**
     The value of leaf i that the hash of its ancestor at the given level shows. The last write
     through that ancestor decides: it shows what the child shows, except that an update from
     the other side shows the child as it was at the last append below the ancestor.
   */
  function Seen(c: TreeConfig, ops: seq<Op>, level: nat, i: nat): nat
    decreases level, |ops|
  {
    if ops == [] then c.zeroValue
    else
      var last, earlier, node := ops[|ops| - 1], ops[..|ops| - 1], Key(level, Up(i, level));
      if !OnPath(last.leaf, node) then Seen(c, earlier, level, i)
      else if level == 0 then last.value
      else if last.Append? || OnPath(last.leaf, Key(level - 1, Up(i, level - 1))) then Seen(c, ops, level - 1, i)
      else Seen(c, LastAppendBelow(earlier, node), level - 1, i)
  }

  /** The leaves that the nodes of the given level show together. */
  function Shown(c: TreeConfig, ops: seq<Op>, level: nat): (leaves: seq<nat>)
    ensures |leaves| == Leaves(ops)
  {
    seq(Leaves(ops), i requires 0 <= i => Seen(c, ops, level, i))
  }

  ghost predicate WellFormed(ops: seq<Op>) {
    ops == [] || (
      var last, earlier := ops[|ops| - 1], ops[..|ops| - 1];
      && WellFormed(earlier)
      && (if last.Append? then last.leaf == Leaves(earlier) else last.leaf < Leaves(earlier)))
  }

  lemma {:induction false} ReachedIsWellFormed(c: TreeConfig, t: Nodes, ops: seq<Op>)
    requires Reached(c, t, ops)
    ensures WellFormed(ops)
    decreases |ops|
  {
    if ops != [] {
      var earlier := ops[..|ops| - 1];
      var before :| c.Shape(before, Leaves(earlier)) && Reached(c, before, earlier)
                    && Writes(c, before, t, Leaves(earlier), ops[|ops| - 1]);
      ReachedIsWellFormed(c, before, earlier);
    }
  }

  lemma {:induction false} PrefixIsWellFormed(ops: seq<Op>, node: Key)
    requires WellFormed(ops)
    ensures WellFormed(LastAppendBelow(ops, node)) && Leaves(LastAppendBelow(ops, node)) <= Leaves(ops)
    decreases |ops|
  {
    if ops != [] { PrefixIsWellFormed(ops[..|ops| - 1], node); }
  }

  /** A leaf that was never appended shows as empty. */
  lemma {:induction false} NoLeafShowsEmpty(c: TreeConfig, ops: seq<Op>, level: nat, i: nat)
    requires WellFormed(ops) && i >= Leaves(ops)
    ensures Seen(c, ops, level, i) == c.zeroValue
    decreases level, |ops|
  {
    if ops != [] {
      var last, earlier, node := ops[|ops| - 1], ops[..|ops| - 1], Key(level, Up(i, level));
      if !OnPath(last.leaf, node) {
        NoLeafShowsEmpty(c, earlier, level, i);
      } else if level > 0 {
        PrefixIsWellFormed(earlier, node);
        NoLeafShowsEmpty(c, ops, level - 1, i);
        NoLeafShowsEmpty(c, LastAppendBelow(earlier, node), level - 1, i);
      }
    }
  }

  lemma ShownAt(c: TreeConfig, ops: seq<Op>, level: nat, i: nat)
    requires WellFormed(ops)
    ensures c.LeafAt(Shown(c, ops, level), i) == Seen(c, ops, level, i)
  {
    if i >= Leaves(ops) { NoLeafShowsEmpty(c, ops, level, i); }
  }

  // ----- hashes and copies -----

  function ShownRoot(c: TreeConfig, ops: seq<Op>, k: Key): nat {
    c.SubRoot(Shown(c, ops, k.level), k.level, k.index)
  }

  ghost predicate HashIsShown(c: TreeConfig, t: Nodes, ops: seq<Op>, k: Key) {
    c.HashAt(t, k) == ShownRoot(c, ops, k)
  }

  /** A copy is from the last append below the parent. */
  ghost predicate CopyIsShown(c: TreeConfig, t: Nodes, ops: seq<Op>, k: Key) {
    k in t && k.level < c.levels ==>
      t[k].siblingHash == Some(ShownRoot(c, LastAppendBelow(ops, ParentKey(k)), SiblingKey(k)))
  }

  ghost predicate AllShown(c: TreeConfig, t: Nodes, ops: seq<Op>) {
    && (forall k: Key | k.level <= c.levels :: HashIsShown(c, t, ops, k))
    && (forall k: Key :: CopyIsShown(c, t, ops, k))
  }

  lemma ShownRootOff(c: TreeConfig, ops: seq<Op>, op: Op, k: Key)
    requires WellFormed(ops + [op]) && !OnPath(op.leaf, k)
    ensures ShownRoot(c, ops + [op], k) == ShownRoot(c, ops, k)
  {
    hide c.SubRoot, c.LeafAt, Shown;
    assert (ops + [op])[..|ops|] == ops;
    forall i: nat | Up(i, k.level) == k.index
      ensures c.LeafAt(Shown(c, ops + [op], k.level), i) == c.LeafAt(Shown(c, ops, k.level), i)
    {
      ShownAt(c, ops + [op], k.level, i);
      ShownAt(c, ops, k.level, i);
    }
    c.SubRootOfSameLeaves(Shown(c, ops + [op], k.level), Shown(c, ops, k.level), k.level, k.index);
  }

  /** The run whose leaves the sibling shows in the hash that a write computes for the parent. */
  function SiblingRun(ops: seq<Op>, op: Op, parent: Key): seq<Op> {
    if op.Append? then ops + [op] else LastAppendBelow(ops, parent)
  }

  lemma ShownRootOn(c: TreeConfig, ops: seq<Op>, op: Op, level: nat)
    requires WellFormed(ops + [op])
    ensures
      var node, parent := Key(level, Up(op.leaf, level)), Key(level + 1, Up(op.leaf, level + 1));
      ShownRoot(c, ops + [op], parent)
      == c.Combine(node.index, ShownRoot(c, ops + [op], node),
                   ShownRoot(c, SiblingRun(ops, op, parent), SiblingKey(node)))
  {
    hide c.SubRoot, c.LeafAt, Shown, c.Combine, Up, LastAppendBelow;
    assert (ops + [op])[..|ops|] == ops;
    var node, parent := Key(level, Up(op.leaf, level)), Key(level + 1, Up(op.leaf, level + 1));
    PathParent(op.leaf, level);
    PrefixIsWellFormed(ops, parent);
    forall i: nat | Up(i, level) == node.index || Up(i, level) == Sibling(node.index)
      ensures c.LeafAt(Shown(c, ops + [op], level + 1), i)
              == c.LeafAt(Shown(c, if Up(i, level) == node.index then ops + [op] else SiblingRun(ops, op, parent),
                                level), i)
    {
      PathParent(i, level);
      SiblingOfSibling(node);
      ShownAt(c, ops + [op], level + 1, i);
      ShownAt(c, ops + [op], level, i);
      ShownAt(c, SiblingRun(ops, op, parent), level, i);
    }
    c.SubRootOfSameLeaves(Shown(c, ops + [op], level + 1), Shown(c, ops + [op], level), level, node.index);
    c.SubRootOfSameLeaves(Shown(c, ops + [op], level + 1), Shown(c, SiblingRun(ops, op, parent), level), level,
                          Sibling(node.index));
    c.SubRootOfParent(Shown(c, ops + [op], level + 1), op.leaf, level);
  }

  /** The sibling hash that a write uses at one level of its path. */
  ghost function UsedSibling(c: TreeConfig, t: Nodes, op: Op, level: nat): nat
    requires level < c.levels && (op.Rewrite? ==> c.PathStored(t, op.leaf))
  {
    if op.Append? then c.HashAt(t, Key(level, Sibling(Up(op.leaf, level)))) else c.CachedAt(t, op.leaf, level)
  }

  lemma WriteStarts(c: TreeConfig, t: Nodes, s: Nodes, n: nat, op: Op)
    requires c.Shape(t, n) && Writes(c, t, s, n, op)
    ensures c.HashAt(s, Key(0, op.leaf)) == op.value
  {
    if op.Rewrite? {
      c.AncestorIsStored(t, n, op.leaf, 0);
      c.HashAfterSetPath(t, op.leaf, op.value, c.levels, Key(0, op.leaf));
    }
  }

  lemma WriteCombines(c: TreeConfig, t: Nodes, s: Nodes, n: nat, op: Op, level: nat)
    requires c.Shape(t, n) && Writes(c, t, s, n, op) && level < c.levels
    ensures c.HashAt(s, Key(level + 1, Up(op.leaf, level + 1)))
            == c.Combine(Up(op.leaf, level), c.HashAt(s, Key(level, Up(op.leaf, level))), UsedSibling(c, t, op, level))
  {
    hide c.Shape, c.SetPath, c.Climb, c.Combine, Up, c.CachedAt;
    var node, parent := Key(level, Up(op.leaf, level)), Key(level + 1, Up(op.leaf, level + 1));
    if op.Append? {
      assert c.PathCombines(s, n, level);
      PathHasOneNode(n, SiblingKey(node), node);
    } else {
      c.AncestorIsStored(t, n, op.leaf, level);
      c.AncestorIsStored(t, n, op.leaf, level + 1);
      c.HashAfterSetPath(t, op.leaf, op.value, c.levels, node);
      c.HashAfterSetPath(t, op.leaf, op.value, c.levels, parent);
      c.ClimbStep(t, op.leaf, op.value, level);
    }
  }

  lemma WriteLeavesOthers(c: TreeConfig, t: Nodes, s: Nodes, n: nat, op: Op, k: Key)
    requires c.Shape(t, n) && Writes(c, t, s, n, op) && !OnPath(op.leaf, k)
    ensures c.HashAt(s, k) == c.HashAt(t, k)
  {
    if op.Rewrite? { c.HashAfterSetPath(t, op.leaf, op.value, c.levels, k); }
  }

  lemma UsedSiblingIsShown(c: TreeConfig, t: Nodes, ops: seq<Op>, op: Op, level: nat)
    requires c.Shape(t, Leaves(ops)) && AllShown(c, t, ops) && WellFormed(ops + [op]) && level < c.levels
    requires op.Rewrite? ==> op.leaf < Leaves(ops) && c.PathStored(t, op.leaf)
    ensures var node, parent := Key(level, Up(op.leaf, level)), Key(level + 1, Up(op.leaf, level + 1));
            UsedSibling(c, t, op, level) == ShownRoot(c, SiblingRun(ops, op, parent), SiblingKey(node))
  {
    hide ShownRoot, c.Shape, Up, LastAppendBelow;
    var node := Key(level, Up(op.leaf, level));
    PathParent(op.leaf, level);
    if op.Append? {
      PathHasOneNode(op.leaf, SiblingKey(node), node);
      ShownRootOff(c, ops, op, SiblingKey(node));
      assert HashIsShown(c, t, ops, SiblingKey(node));
    } else {
      c.AncestorIsStored(t, Leaves(ops), op.leaf, level);
      assert CopyIsShown(c, t, ops, node);
    }
  }

  lemma {:induction false} PathHashIsShown(c: TreeConfig, t: Nodes, s: Nodes, ops: seq<Op>, op: Op, level: nat)
    requires c.Shape(t, Leaves(ops)) && Writes(c, t, s, Leaves(ops), op) && AllShown(c, t, ops)
    requires WellFormed(ops + [op]) && level <= c.levels
    ensures HashIsShown(c, s, ops + [op], Key(level, Up(op.leaf, level)))
    decreases level
  {
    hide ShownRoot, c.Shape, c.SetPath, c.PathStored, c.AppendWritten, AllShown, UsedSibling, c.Combine;
    if level == 0 {
      WriteStarts(c, t, s, Leaves(ops), op);
      WrittenLeafIsShown(c, ops, op);
    } else {
      PathHashIsShown(c, t, s, ops, op, level - 1);
      WriteCombines(c, t, s, Leaves(ops), op, level - 1);
      UsedSiblingIsShown(c, t, ops, op, level - 1);
      ShownRootOn(c, ops, op, level - 1);
    }
  }

  lemma WrittenLeafIsShown(c: TreeConfig, ops: seq<Op>, op: Op)
    requires WellFormed(ops + [op])
    ensures ShownRoot(c, ops + [op], Key(0, op.leaf)) == op.value
  {
    ShownAt(c, ops + [op], 0, op.leaf);
  }

  lemma CopyStaysShown(c: TreeConfig, t: Nodes, s: Nodes, ops: seq<Op>, op: Op, k: Key)
    requires c.Shape(t, Leaves(ops)) && Writes(c, t, s, Leaves(ops), op) && AllShown(c, t, ops)
    requires forall j: Key | j.level <= c.levels :: HashIsShown(c, s, ops + [op], j)
    ensures CopyIsShown(c, s, ops + [op], k)
  {
    hide ShownRoot, c.Shape, c.PathStored, c.HashesWritten;
    assert (ops + [op])[..|ops|] == ops;
    assert CopyIsShown(c, t, ops, k);
    if op.Append? {
      assert c.CopyWritten(t, s, op.leaf, c.levels, k);
      if k in s && k.level < c.levels && OnPath(op.leaf, ParentKey(k)) {
        assert HashIsShown(c, s, ops + [op], SiblingKey(k));
      }
    } else {
      c.SetPathTouchesHashesOnly(t, op.leaf, op.value, c.levels);
    }
  }

  lemma WriteKeepsShown(c: TreeConfig, t: Nodes, s: Nodes, ops: seq<Op>, op: Op)
    requires c.Shape(t, Leaves(ops)) && Writes(c, t, s, Leaves(ops), op) && AllShown(c, t, ops)
    requires WellFormed(ops + [op])
    ensures AllShown(c, s, ops + [op])
  {
    hide ShownRoot, c.Shape, Writes, WellFormed;
    forall k: Key | k.level <= c.levels ensures HashIsShown(c, s, ops + [op], k) {
      if OnPath(op.leaf, k) {
        PathHashIsShown(c, t, s, ops, op, k.level);
      } else {
        WriteLeavesOthers(c, t, s, Leaves(ops), op, k);
        ShownRootOff(c, ops, op, k);
        assert HashIsShown(c, t, ops, k);
      }
    }
    forall k: Key ensures CopyIsShown(c, s, ops + [op], k) {
      CopyStaysShown(c, t, s, ops, op, k);
    }
  }

  /** Every hash and every copy of a tree that any run has written is what the run shows there. */
  lemma {:induction false} RunIsShown(c: TreeConfig, t: Nodes, ops: seq<Op>)
    requires Reached(c, t, ops)
    ensures AllShown(c, t, ops)
    decreases |ops|
  {
    hide c.Shape, Writes;
    ReachedIsWellFormed(c, t, ops);
    if ops == [] {
      forall k: Key | k.level <= c.levels ensures HashIsShown(c, t, ops, k) {
        c.WidthOfNothing(k.level);
        c.SubRootOfPadding([], k.level, k.index);
      }
    } else {
      var earlier := ops[..|ops| - 1];
      var before :| c.Shape(before, Leaves(earlier)) && Reached(c, before, earlier)
                    && Writes(c, before, t, Leaves(earlier), ops[|ops| - 1]);
      RunIsShown(c, before, earlier);
      assert earlier + [ops[|ops| - 1]] == ops;
      WriteKeepsShown(c, before, t, earlier, ops[|ops| - 1]);
    }
  }

  // ----- the stored root -----

  lemma EmptyTreeHasShape(c: TreeConfig)
    ensures c.Shape(map[], 0)
  {
    forall level: nat ensures Width(0, level) == 0 { c.WidthOfNothing(level); }
  }

  lemma ReachedHasShape(c: TreeConfig, t: Nodes, ops: seq<Op>)
    requires Reached(c, t, ops)
    ensures c.Shape(t, Leaves(ops))
  {
    hide c.Shape, c.SetPath, c.PathStored, c.AppendWritten;
    if ops == [] {
      EmptyTreeHasShape(c);
    } else {
      var earlier, last := ops[..|ops| - 1], ops[|ops| - 1];
      var before :| c.Shape(before, Leaves(earlier)) && Reached(c, before, earlier)
                    && Writes(c, before, t, Leaves(earlier), last);
      if last.Rewrite? { c.SetPathKeepsShape(before, Leaves(earlier), last.leaf, last.value); }
    }
  }

  /** The stored root is the from-scratch root of the leaves that show at the top. */
  lemma StoredRootShows(c: TreeConfig, t: Nodes, ops: seq<Op>)
    requires Reached(c, t, ops) && Leaves(ops) > 0
    ensures Key(c.levels, 0) in t && t[Key(c.levels, 0)].hash == c.Root(Shown(c, ops, c.levels))
  {
    hide c.SubRoot, c.Shape, Shown, Reached;
    RunIsShown(c, t, ops);
    ReachedHasShape(c, t, ops);
    c.RootIsStored(t, Leaves(ops));
    assert HashIsShown(c, t, ops, Key(c.levels, 0));
  }

  lemma LeavesShowThemselves(c: TreeConfig, t: Nodes, ops: seq<Op>)
    requires Reached(c, t, ops)
    ensures c.LeafHashes(t, Leaves(ops)) == Shown(c, ops, 0)
  {
    hide c.Shape, Reached;
    RunIsShown(c, t, ops);
    forall i | 0 <= i < Leaves(ops) ensures c.HashAt(t, Key(0, i)) == Seen(c, ops, 0, i) {
      assert HashIsShown(c, t, ops, Key(0, i));
    }
  }

  /**
     With a collision-free hash, the stored root is that of the stored leaves exactly when each
     leaf shows at the top.
     */
  lemma RootIsRightExactlyWhenAllLeavesShow(c: TreeConfig, t: Nodes, ops: seq<Op>)
    requires Reached(c, t, ops) && Leaves(ops) > 0 && c.Injective()
    ensures Key(c.levels, 0) in t
    ensures t[Key(c.levels, 0)].hash == c.Root(c.LeafHashes(t, Leaves(ops)))
            <==> forall i | 0 <= i < Leaves(ops) :: Seen(c, ops, c.levels, i) == c.HashAt(t, Key(0, i))
  {
    hide c.SubRoot, c.Injective, Reached, Seen;
    StoredRootShows(c, t, ops);
    LeavesShowThemselves(c, t, ops);
    ReachedHasShape(c, t, ops);
    c.RootDeterminesLeaves(Shown(c, ops, c.levels), c.LeafHashes(t, Leaves(ops)));
    if forall i | 0 <= i < Leaves(ops) :: Seen(c, ops, c.levels, i) == c.HashAt(t, Key(0, i)) {
      assert Shown(c, ops, c.levels) == c.LeafHashes(t, Leaves(ops));
    } else {
      var i :| 0 <= i < Leaves(ops) && Seen(c, ops, c.levels, i) != c.HashAt(t, Key(0, i));
      assert Shown(c, ops, c.levels)[i] != c.LeafHashes(t, Leaves(ops))[i];
    }
  }

  /** With a collision-free hash, what shows of a leaf at the top is the one value provable at its position. */
  lemma ProvableExactlyWhatShows(c: TreeConfig, t: Nodes, ops: seq<Op>, v: nat, i: nat)
    requires Reached(c, t, ops) && Leaves(ops) > 0 && i < Pow2(c.levels) && c.Injective()
    ensures Key(c.levels, 0) in t
    ensures c.Provable(t[Key(c.levels, 0)].hash, v, i) <==> v == Seen(c, ops, c.levels, i)
  {
    hide c.SubRoot, c.Injective, c.Provable, Reached, Seen, c.LeafAt;
    StoredRootShows(c, t, ops);
    ReachedIsWellFormed(c, t, ops);
    ShownAt(c, ops, c.levels, i);
    c.ProvableExactlyTheLeaf(Shown(c, ops, c.levels), v, i);
  }

  // ----- which update undoes which -----

  /** The paths of i and j first meet just above the given level. */
  predicate MeetAbove(i: nat, j: nat, level: nat) {
    Up(i, level) != Up(j, level) && Up(i, level + 1) == Up(j, level + 1)
  }

  lemma {:induction false} PathsMeet(i: nat, j: nat, levels: nat) returns (m: nat)
    requires i != j && Up(i, levels) == Up(j, levels)
    ensures m < levels && MeetAbove(i, j, m)
  {
    if Up(i, levels - 1) == Up(j, levels - 1) {
      m := PathsMeet(i, j, levels - 1);
    } else {
      m := levels - 1;
    }
  }

  lemma {:induction false} PathsStayTogether(i: nat, j: nat, low: nat, high: nat)
    requires low <= high && Up(i, low) == Up(j, low)
    ensures Up(i, high) == Up(j, high)
  {
    if low < high { PathsStayTogether(i, j, low, high - 1); }
  }

  /** After an update of leaf j, leaf i shows as it was at the last append below their lowest common ancestor. */
  lemma {:induction false} UpdateShowsOldSibling(c: TreeConfig, ops: seq<Op>, i: nat, j: nat, w: nat, m: nat,
                                                 level: nat)
    requires MeetAbove(i, j, m) && m < level
    ensures Seen(c, ops + [Rewrite(j, w)], level, i) == Seen(c, LastAppendBelow(ops, Key(m + 1, Up(i, m + 1))), m, i)
    decreases level
  {
    hide LastAppendBelow, Up;
    assert (ops + [Rewrite(j, w)])[..|ops|] == ops;
    PathsStayTogether(i, j, m + 1, level);
    if level > m + 1 {
      PathsStayTogether(i, j, m + 1, level - 1);
      UpdateShowsOldSibling(c, ops, i, j, w, m, level - 1);
    }
  }

  lemma {:induction false} NoAppendBelowInBetween(a: seq<Op>, b: seq<Op>, node: Key)
    requires forall op | op in b :: !AppendsBelow(op, node)
    ensures LastAppendBelow(a + b, node) == LastAppendBelow(a, node)
    decreases |b|
  {
    if b == [] {
      assert a + b == a;
    } else {
      assert (a + b)[..|a + b| - 1] == a + b[..|b| - 1];
      NoAppendBelowInBetween(a, b[..|b| - 1], node);
    }
  }

  /** Appends leave an update showing wherever it showed. */
  lemma {:induction false} AppendsKeepShowing(c: TreeConfig, a: seq<Op>, i: nat, v: nat, b: seq<Op>, level: nat)
    requires WellFormed(a + [Rewrite(i, v)] + b) && forall op | op in b :: op.Append?
    ensures Seen(c, a + [Rewrite(i, v)] + b, level, i) == v
    decreases level, |b|
  {
    var ops := a + [Rewrite(i, v)] + b;
    if b == [] {
      assert ops[|ops| - 1] == Rewrite(i, v);
      if level > 0 { AppendsKeepShowing(c, a, i, v, b, level - 1); }
    } else {
      assert ops[|ops| - 1] in b && ops[..|ops| - 1] == a + [Rewrite(i, v)] + b[..|b| - 1];
      AppendsKeepShowing(c, a, i, v, b[..|b| - 1], level);
      if level > 0 { AppendsKeepShowing(c, a, i, v, b, level - 1); }
      if level == 0 { RewrittenLeafIsNotAppended(a, i, v, b); }
    }
  }

  lemma {:induction false} RewrittenLeafIsNotAppended(a: seq<Op>, i: nat, v: nat, b: seq<Op>)
    requires WellFormed(a + [Rewrite(i, v)] + b)
    ensures i < Leaves(a + [Rewrite(i, v)] + b)
    ensures forall op | op in b && op.Append? :: op.leaf != i
    decreases |b|
  {
    var ops := a + [Rewrite(i, v)] + b;
    if b == [] {
      assert ops[|ops| - 1] == Rewrite(i, v);
    } else {
      assert ops[|ops| - 1] == b[|b| - 1] && ops[..|ops| - 1] == a + [Rewrite(i, v)] + b[..|b| - 1];
      RewrittenLeafIsNotAppended(a, i, v, b[..|b| - 1]);
    }
  }

  /**
     A leaf i is updated, then other writes follow, then leaf j is updated. If none of the other
     writes appended a leaf below the lowest common ancestor of i and j, the first update is
     undone at the top: leaf i shows as at the last append there before it. If they were all
     appends and one was below that ancestor, the first update shows.
   */
  lemma LaterUpdateUndoesExactlyWithoutAppendBelow(c: TreeConfig, a: seq<Op>, i: nat, v: nat, b: seq<Op>, j: nat,
                                                   w: nat,
                                                   m: nat)
    requires MeetAbove(i, j, m) && m < c.levels
    requires WellFormed(a + [Rewrite(i, v)] + b + [Rewrite(j, w)])
    ensures
      var node, shows := Key(m + 1, Up(i, m + 1)), Seen(c, a + [Rewrite(i, v)] + b + [Rewrite(j, w)], c.levels, i);
      && ((forall op | op in b :: !AppendsBelow(op, node)) ==> shows == Seen(c, LastAppendBelow(a, node), m, i))
      && ((forall op | op in b :: op.Append?) && (exists op | op in b :: AppendsBelow(op, node)) ==> shows == v)
  {
    hide Seen, Up;
    var node, ops := Key(m + 1, Up(i, m + 1)), a + [Rewrite(i, v)] + b;
    UpdateShowsOldSibling(c, ops, i, j, w, m, c.levels);
    if forall op | op in b :: !AppendsBelow(op, node) {
      assert ops == a + ([Rewrite(i, v)] + b);
      NoAppendBelowInBetween(a, [Rewrite(i, v)] + b, node);
    } else if forall op | op in b :: op.Append? {
      var cut := CutInside(a + [Rewrite(i, v)], b, node);
      assert (ops + [Rewrite(j, w)])[..|ops|] == ops;
      PrefixIsWellFormed(ops, node);
      AppendsKeepShowing(c, a, i, v, b[..cut], m);
    }
  }

  lemma {:induction false} CutInside(a: seq<Op>, b: seq<Op>, node: Key) returns (cut: nat)
    requires exists op | op in b :: AppendsBelow(op, node)
    ensures cut <= |b| && LastAppendBelow(a + b, node) == a + b[..cut]
    decreases |b|
  {
    var earlier := b[..|b| - 1];
    assert (a + b)[..|a + b| - 1] == a + earlier && (a + b)[|a + b| - 1] == b[|b| - 1];
    if AppendsBelow(b[|b| - 1], node) {
      cut := |b|;
      assert b[..cut] == b;
    } else {
      var op :| op in b && AppendsBelow(op, node);
      assert op in earlier;
      cut := CutInside(a, earlier, node);
      assert earlier[..cut] == b[..cut];
    }
  }
}
