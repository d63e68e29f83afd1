/**
 The zero-padded Merkle tree as the server stores it: one record per node, each with its
 hash, a cached copy of its sibling's hash and a link to its parent.

 The records are compared with `SubRoot`, the root computed from scratch over the plain
 leaf list. Two properties of the records are kept apart: `HashOk` (every inner hash is
 the hash of the children) and `Fresh` (every cached sibling hash is up to date).
 */
module MerkleTree {
  import opened Prelude

  datatype Key = Key(level: nat, index: nat)

  datatype Node = Node(
    groupId: string,
    indexInGroup: int,
    hash: nat,
    siblingHash: Option<nat>,
    parent: Option<Key>)

  type Nodes = map<Key, Node>

  /** What a leaf record says about its user; the pair of group and index identifies it. */
  datatype Slot = Slot(groupId: string, indexInGroup: int, hash: nat)

  function SlotOf(node: Node): Slot {
    Slot(node.groupId, node.indexInGroup, node.hash)
  }

  /** The leaf records are the given leaves, in the order of their positions. */
  ghost predicate HoldsSlots(t: Nodes, slots: seq<Slot>) {
    forall i | 0 <= i < |slots| :: Key(0, i) in t && SlotOf(t[Key(0, i)]) == slots[i]
  }

  function Hashes(slots: seq<Slot>): (hashes: seq<nat>)
    ensures |hashes| == |slots|
  {
    seq(|slots|, i requires 0 <= i < |slots| => slots[i].hash)
  }

  /** The leaf records of a tree of n leaves, read back. */
  function ReadSlots(t: Nodes, n: nat): (slots: seq<Slot>)
    requires forall i | 0 <= i < n :: Key(0, i) in t
    ensures |slots| == n
  {
    seq(n, i requires 0 <= i < n && Key(0, i) in t => SlotOf(t[Key(0, i)]))
  }

  /** The first leaf that holds the given hash. */
  function FirstLeaf(slots: seq<Slot>, hash: nat): (r: Option<nat>)
    ensures r.Some? ==> r.value < |slots| && slots[r.value].hash == hash
    ensures forall j | 0 <= j < (if r.Some? then r.value else |slots|) :: slots[j].hash != hash
  {
    if slots == [] then None
    else
      var r := FirstLeaf(slots[..|slots| - 1], hash);
      if r.Some? then r
      else if slots[|slots| - 1].hash == hash then Some(|slots| - 1)
      else None
  }

  function LeafCount(t: Nodes): nat {
    |set k | k in t && k.level == 0|
  }

  lemma {:induction false} FirstKeysCount(keys: set<Key>, n: nat)
    requires forall k :: k in keys <==> k.level == 0 && k.index < n
    ensures |keys| == n
  {
    if n == 0 {
      assert keys == {};
    } else {
      FirstKeysCount(keys - {Key(0, n - 1)}, n - 1);
    }
  }

  /** The position, at the given level, of the ancestor of leaf i. */
  function Up(i: nat, level: nat): nat {
    if level == 0 then i else Up(i, level - 1) / 2
  }

  /** k is leaf i or one of its ancestors. */
  predicate OnPath(i: nat, k: Key) {
    k.index == Up(i, k.level)
  }

  function Pow2(level: nat): (p: nat)
    ensures p >= 1
  {
    if level == 0 then 1 else 2 * Pow2(level - 1)
  }

  /** How many nodes a tree of n leaves has at the given level: n / 2^level rounded up. */
  function Width(n: nat, level: nat): nat {
    if level == 0 then n else (Width(n, level - 1) + 1) / 2
  }

  function Sibling(i: nat): nat {
    if i % 2 == 0 then i + 1 else i - 1
  }

  function SiblingKey(k: Key): Key {
    Key(k.level, Sibling(k.index))
  }

  function ParentKey(k: Key): Key {
    Key(k.level + 1, k.index / 2)
  }

  lemma PathHasOneNode(i: nat, k: Key, node: Key)
    requires node.index == Up(i, node.level)
    ensures k.level == node.level ==> (OnPath(i, k) <==> k == node)
  {
  }

  lemma PathParent(i: nat, level: nat)
    ensures Key(level + 1, Up(i, level + 1)) == ParentKey(Key(level, Up(i, level)))
  {
  }

  lemma SiblingOfSibling(k: Key)
    ensures SiblingKey(SiblingKey(k)) == k
    ensures SiblingKey(k).index / 2 == k.index / 2
  {
  }

  lemma {:induction false} WidthOfSuccessor(n: nat, level: nat)
    ensures Width(n + 1, level) == Up(n, level) + 1
  {
    if level > 0 { WidthOfSuccessor(n, level - 1); }
  }

  lemma {:induction false} WidthIsMonotone(m: nat, n: nat, level: nat)
    requires m <= n
    ensures Width(m, level) <= Width(n, level)
  {
    if level > 0 { WidthIsMonotone(m, n, level - 1); }
  }

  lemma {:induction false} WidthOfSuccessorIsClose(n: nat, level: nat)
    ensures Width(n, level) <= Width(n + 1, level) <= Width(n, level) + 1
  {
    if level > 0 { WidthOfSuccessorIsClose(n, level - 1); }
  }

  /** Leaf i has an ancestor at every level, and that ancestor is one of the level's nodes. */
  lemma {:induction false} UpIsInWidth(i: nat, n: nat, level: nat)
    requires i < n
    ensures Up(i, level) < Width(n, level)
  {
    if level > 0 { UpIsInWidth(i, n, level - 1); }
  }

  lemma {:induction false} UpIsBounded(i: nat, level: nat, levels: nat)
    requires level <= levels && i < Pow2(levels)
    ensures Up(i, level) < Pow2(levels - level)
  {
    if level > 0 { UpIsBounded(i, level - 1, levels); }
  }

  lemma {:induction false} WidthIsBounded(n: nat, level: nat, levels: nat)
    requires level <= levels && n <= Pow2(levels)
    ensures Width(n, level) <= Pow2(levels - level)
  {
    if level > 0 { WidthIsBounded(n, level - 1, levels); }
  }

  datatype TreeConfig = TreeConfig(hash: (nat, nat) -> nat, zeroValue: nat, levels: nat) {

    // ----- the tree computed from scratch -----

    /** The hash of a subtree of the given height that holds no leaf. */
    function Zero(level: nat): nat {
      if level == 0 then zeroValue else hash(Zero(level - 1), Zero(level - 1))
    }

    function ZeroTable(): (zeros: seq<nat>)
      ensures |zeros| == levels
      ensures forall level | 0 <= level < levels :: zeros[level] == Zero(level)
    {
      seq(levels, level requires 0 <= level => Zero(level))
    }

    function LeafAt(leaves: seq<nat>, i: nat): nat {
      if i < |leaves| then leaves[i] else zeroValue
    }

    /** The hash of the subtree rooted at (level, index), over the padded leaf list. */
    function SubRoot(leaves: seq<nat>, level: nat, index: nat): nat {
      if level == 0 then LeafAt(leaves, index)
      else hash(SubRoot(leaves, level - 1, 2 * index), SubRoot(leaves, level - 1, 2 * index + 1))
    }

    function Root(leaves: seq<nat>): nat {
      SubRoot(leaves, levels, 0)
    }

    /** The hash is collision free. Only the "only if" directions below need it. */
    ghost predicate Injective() {
      forall a, b, c, d :: hash(a, b) == hash(c, d) ==> a == c && b == d
    }

    lemma {:induction false} SubRootOfPadding(leaves: seq<nat>, level: nat, index: nat)
      requires Width(|leaves|, level) <= index
      ensures SubRoot(leaves, level, index) == Zero(level)
      decreases level
    {
      if level > 0 {
        SubRootOfPadding(leaves, level - 1, 2 * index);
        SubRootOfPadding(leaves, level - 1, 2 * index + 1);
      }
    }

    /** Replacing leaf i changes no subtree that does not contain leaf i. */
    lemma {:induction false} SubRootElsewhere(leaves: seq<nat>, i: nat, v: nat, level: nat, index: nat)
      requires i < |leaves| && Up(i, level) != index
      ensures SubRoot(leaves[i := v], level, index) == SubRoot(leaves, level, index)
      decreases level
    {
      if level > 0 {
        SubRootElsewhere(leaves, i, v, level - 1, 2 * index);
        SubRootElsewhere(leaves, i, v, level - 1, 2 * index + 1);
      }
    }

    /** With a collision-free hash, the root determines every padded leaf below it. */
    lemma {:induction false} SubRootDetermines(a: seq<nat>, b: seq<nat>, level: nat, index: nat, i: nat)
      requires Injective()
      requires SubRoot(a, level, index) == SubRoot(b, level, index)
      requires Up(i, level) == index
      ensures LeafAt(a, i) == LeafAt(b, i)
      decreases level
    {
      if level > 0 {
        var below := Up(i, level - 1);
        assert below == 2 * index || below == 2 * index + 1;
        SubRootDetermines(a, b, level - 1, below, i);
      }
    }

    lemma RootDeterminesLeaves(a: seq<nat>, b: seq<nat>)
      requires Injective() && |a| == |b| <= Pow2(levels)
      ensures Root(a) == Root(b) <==> a == b
    {
      if Root(a) == Root(b) {
        forall i | 0 <= i < |a| ensures a[i] == b[i] {
          UpIsBounded(i, levels, levels);
          SubRootDetermines(a, b, levels, 0, i);
        }
      }
    }

    /** Lists that agree on the padded leaves of a subtree have the same hash there. */
    lemma {:induction false} SubRootOfSameLeaves(a: seq<nat>, b: seq<nat>, level: nat, index: nat)
      requires forall i: nat | Up(i, level) == index :: LeafAt(a, i) == LeafAt(b, i)
      ensures SubRoot(a, level, index) == SubRoot(b, level, index)
      decreases level
    {
      if level > 0 {
        SubRootOfSameLeaves(a, b, level - 1, 2 * index);
        SubRootOfSameLeaves(a, b, level - 1, 2 * index + 1);
      } else {
        assert Up(index, 0) == index;
      }
    }

    /**
     Leaves added to the right leave the root as it was if they are all empty, and with a
     collision-free hash only then.
     */
    lemma RootOfLongerList(a: seq<nat>, b: seq<nat>)
      requires a <= b && |b| <= Pow2(levels)
      ensures (forall i | |a| <= i < |b| :: b[i] == zeroValue) ==> Root(a) == Root(b)
      ensures Injective() && Root(a) == Root(b) ==> forall i | |a| <= i < |b| :: b[i] == zeroValue
    {
      if forall i | |a| <= i < |b| :: b[i] == zeroValue {
        SubRootOfSameLeaves(a, b, levels, 0);
      }
      if Injective() && Root(a) == Root(b) {
        forall i | |a| <= i < |b| ensures b[i] == zeroValue {
          UpIsBounded(i, levels, levels);
          SubRootDetermines(a, b, levels, 0, i);
        }
      }
    }

    /** The root of a tree with the given leaves; an empty tree has none. */
    function RootOf(slots: seq<Slot>): Option<nat> {
      if slots == [] then None else Some(Root(Hashes(slots)))
    }

    // ----- authentication paths -----

    /** One step up an authentication path: the parity of the position picks the side. */
    function Combine(position: nat, own: nat, sibling: nat): nat {
      if position % 2 == 0 then hash(own, sibling) else hash(sibling, own)
    }

    lemma CombineDetermines(position: nat, a: nat, b: nat, c: nat, d: nat)
      requires Injective() && Combine(position, a, b) == Combine(position, c, d)
      ensures a == c && b == d
    {
    }

    /** The hash reached after `level` steps from value v at leaf i. */
    function Fold(v: nat, i: nat, siblings: seq<nat>, level: nat): nat
      requires level <= |siblings|
      decreases level
    {
      if level == 0 then v
      else Combine(Up(i, level - 1), Fold(v, i, siblings, level - 1), siblings[level - 1])
    }

    lemma {:induction false} FoldDetermines(v: nat, w: nat, i: nat, siblings: seq<nat>, level: nat)
      requires level <= |siblings| && Injective()
      requires Fold(v, i, siblings, level) == Fold(w, i, siblings, level)
      ensures v == w
      decreases level
    {
      if level > 0 {
        CombineDetermines(Up(i, level - 1), Fold(v, i, siblings, level - 1), siblings[level - 1],
                          Fold(w, i, siblings, level - 1), siblings[level - 1]);
        FoldDetermines(v, w, i, siblings, level - 1);
      }
    }

    function SiblingRoot(leaves: seq<nat>, i: nat, level: nat): nat {
      SubRoot(leaves, level, Sibling(Up(i, level)))
    }

    ghost predicate PathAgrees(leaves: seq<nat>, i: nat, siblings: seq<nat>, level: nat)
      requires level <= |siblings|
    {
      forall l | 0 <= l < level :: siblings[l] == SiblingRoot(leaves, i, l)
    }

    /** A node's parent combines the node with its sibling, on the side its position says. */
    lemma SubRootOfParent(leaves: seq<nat>, i: nat, level: nat)
      ensures SubRoot(leaves, level + 1, Up(i, level + 1))
              == Combine(Up(i, level), SubRoot(leaves, level, Up(i, level)), SiblingRoot(leaves, i, level))
    {
      var position := Up(i, level);
      if position % 2 == 0 {
        assert position == 2 * (position / 2);
      } else {
        assert position == 2 * (position / 2) + 1;
      }
    }

    /**
     A path folds to the subtree hash computed from scratch when it starts at the leaf and
     lists the sibling subtrees; with a collision-free hash, only then.
     */
    lemma {:induction false} FoldIsSubRoot(leaves: seq<nat>, v: nat, i: nat, siblings: seq<nat>, level: nat)
      requires level <= |siblings|
      ensures v == LeafAt(leaves, i) && PathAgrees(leaves, i, siblings, level)
              ==> Fold(v, i, siblings, level) == SubRoot(leaves, level, Up(i, level))
      ensures Injective() && Fold(v, i, siblings, level) == SubRoot(leaves, level, Up(i, level))
              ==> v == LeafAt(leaves, i) && PathAgrees(leaves, i, siblings, level)
      decreases level
    {
      if level > 0 {
        var below := level - 1;
        FoldIsSubRoot(leaves, v, i, siblings, below);
        SubRootOfParent(leaves, i, below);
        if Injective() && Fold(v, i, siblings, level) == SubRoot(leaves, level, Up(i, level)) {
          CombineDetermines(Up(i, below), Fold(v, i, siblings, below), siblings[below],
                            SubRoot(leaves, below, Up(i, below)), SiblingRoot(leaves, i, below));
        }
      }
    }

    ghost predicate Provable(root: nat, v: nat, i: nat) {
      exists siblings: seq<nat> :: |siblings| == levels && Fold(v, i, siblings, levels) == root
    }

    /** A value can be proved to be at position i exactly when it is the padded leaf there. */
    lemma ProvableExactlyTheLeaf(leaves: seq<nat>, v: nat, i: nat)
      requires i < Pow2(levels)
      ensures v == LeafAt(leaves, i) ==> Provable(Root(leaves), v, i)
      ensures Injective() && Provable(Root(leaves), v, i) ==> v == LeafAt(leaves, i)
    {
      UpIsBounded(i, levels, levels);
      var path := seq(levels, l requires 0 <= l => SiblingRoot(leaves, i, l));
      FoldIsSubRoot(leaves, v, i, path, levels);
      if Provable(Root(leaves), v, i) {
        var siblings :| |siblings| == levels && Fold(v, i, siblings, levels) == Root(leaves);
        FoldIsSubRoot(leaves, v, i, siblings, levels);
      }
    }

    // ----- the stored records -----

    /** The hash the code uses for a node: the stored one, or the empty subtree's. */
    function HashAt(t: Nodes, k: Key): nat {
      if k in t then t[k].hash else Zero(k.level)
    }

    /** Exactly the ancestors of the first n leaves are stored, linked to their parents. */
    ghost predicate Shape(t: Nodes, n: nat) {
      && n <= Pow2(levels)
      && (forall k :: k in t <==> k.level <= levels && k.index < Width(n, k.level))
      && (forall k | k in t :: t[k].parent == if k.level < levels then Some(ParentKey(k)) else None)
      && (forall k | k in t :: k.level < levels ==> t[k].siblingHash.Some?)
    }

    ghost predicate NodeHashOk(t: Nodes, k: Key) {
      k in t && k.level > 0 ==>
        t[k].hash == hash(HashAt(t, Key(k.level - 1, 2 * k.index)), HashAt(t, Key(k.level - 1, 2 * k.index + 1)))
    }

    ghost predicate HashOk(t: Nodes) {
      forall k :: NodeHashOk(t, k)
    }

    ghost predicate NodeFresh(t: Nodes, k: Key) {
      k in t && k.level < levels ==> t[k].siblingHash == Some(HashAt(t, SiblingKey(k)))
    }

    ghost predicate Fresh(t: Nodes) {
      forall k :: NodeFresh(t, k)
    }

    function LeafHashes(t: Nodes, n: nat): (leaves: seq<nat>)
      ensures |leaves| == n
    {
      seq(n, i requires 0 <= i => HashAt(t, Key(0, i)))
    }

    lemma AncestorIsStored(t: Nodes, n: nat, i: nat, level: nat)
      requires Shape(t, n) && i < n && level <= levels
      ensures Key(level, Up(i, level)) in t
    {
      UpIsInWidth(i, n, level);
    }

    /** Every stored hash is the hash computed from scratch over the stored leaves. */
    lemma {:induction false} StoredHashIsSubRoot(t: Nodes, n: nat, level: nat, index: nat)
      requires Shape(t, n) && HashOk(t) && level <= levels
      ensures HashAt(t, Key(level, index)) == SubRoot(LeafHashes(t, n), level, index)
      decreases level
    {
      hide Width, Pow2, Shape, HashOk;
      if Key(level, index) !in t {
        AbsentIsPadding(t, n, level, index);
      } else if level > 0 {
        StoredHashIsSubRoot(t, n, level - 1, 2 * index);
        StoredHashIsSubRoot(t, n, level - 1, 2 * index + 1);
        HashOkAt(t, Key(level, index));
      } else {
        LeafIsStored(t, n, index);
      }
    }

    lemma AbsentIsPadding(t: Nodes, n: nat, level: nat, index: nat)
      requires Shape(t, n) && level <= levels && Key(level, index) !in t
      ensures SubRoot(LeafHashes(t, n), level, index) == Zero(level)
    {
      hide Width, Pow2, SubRoot, Zero;
      SubRootOfPadding(LeafHashes(t, n), level, index);
    }

    lemma HashOkAt(t: Nodes, k: Key)
      requires HashOk(t)
      ensures NodeHashOk(t, k)
    {
    }

    lemma LeafIsStored(t: Nodes, n: nat, i: nat)
      requires Shape(t, n)
      ensures Key(0, i) in t <==> i < n
    {
    }

    lemma RootIsStored(t: Nodes, n: nat)
      requires Shape(t, n) && n > 0
      ensures Key(levels, 0) in t
    {
      UpIsBounded(0, levels, levels);
      AncestorIsStored(t, n, 0, levels);
    }

    /** The only record without a parent link is the one at the top. */
    lemma RootIsTheOnlyOrphan(t: Nodes, n: nat, k: Key)
      requires Shape(t, n)
      ensures k in t && t[k].parent.None? <==> n > 0 && k == Key(levels, 0)
    {
      WidthIsBounded(n, levels, levels);
      if n > 0 { RootIsStored(t, n); }
      if n == 0 { WidthOfNothing(k.level); }
    }

    lemma {:induction false} WidthOfNothing(level: nat)
      ensures Width(0, level) == 0
    {
      if level > 0 { WidthOfNothing(level - 1); }
    }

    // ----- what an update writes -----

    ghost predicate PathStored(t: Nodes, i: nat) {
      forall k | OnPath(i, k) && k.level < levels :: k in t && t[k].siblingHash.Some?
    }

    function CachedAt(t: Nodes, i: nat, level: nat): nat
      requires PathStored(t, i) && level < levels
    {
      assert OnPath(i, Key(level, Up(i, level)));
      t[Key(level, Up(i, level))].siblingHash.value
    }

    /** The sibling hashes cached along the path of leaf i. */
    function CachedPath(t: Nodes, i: nat): (siblings: seq<nat>)
      requires PathStored(t, i)
      ensures |siblings| == levels
    {
      seq(levels, l requires 0 <= l < levels && PathStored(t, i) => CachedAt(t, i, l))
    }

    /** The hash that climbing from leaf i with value v reaches, using the cached sibling hashes. */
    function Climb(t: Nodes, i: nat, v: nat, level: nat): nat
      requires PathStored(t, i) && level <= levels
    {
      Fold(v, i, CachedPath(t, i), level)
    }

    /** The records after leaf i got value v and its ancestors up to `top` were recomputed. */
    function SetPath(t: Nodes, i: nat, v: nat, top: nat): Nodes
      requires PathStored(t, i) && top <= levels
    {
      map k | k in t ::
        if k.level <= top && OnPath(i, k) then t[k].(hash := Climb(t, i, v, k.level)) else t[k]
    }

    ghost predicate PathFresh(t: Nodes, i: nat) {
      forall k | OnPath(i, k) && k.level < levels :: NodeFresh(t, k)
    }

    lemma ShapeStoresPaths(t: Nodes, n: nat, i: nat)
      requires Shape(t, n) && i < n
      ensures PathStored(t, i) && Key(levels, Up(i, levels)) in t && Up(i, levels) == 0
    {
      UpIsBounded(i, levels, levels);
      AncestorIsStored(t, n, i, levels);
      forall k | OnPath(i, k) && k.level < levels
        ensures k in t && t[k].siblingHash.Some?
      {
        AncestorIsStored(t, n, i, k.level);
      }
    }

    /** An update rewrites hashes and nothing else. */
    lemma SetPathTouchesHashesOnly(t: Nodes, i: nat, v: nat, top: nat)
      requires PathStored(t, i) && top <= levels
      ensures SetPath(t, i, v, top).Keys == t.Keys
      ensures forall k | k in t :: SetPath(t, i, v, top)[k] == t[k].(hash := SetPath(t, i, v, top)[k].hash)
    {
    }

    lemma HashAfterSetPath(t: Nodes, i: nat, v: nat, top: nat, k: Key)
      requires PathStored(t, i) && top <= levels
      ensures k in SetPath(t, i, v, top) <==> k in t
      ensures HashAt(SetPath(t, i, v, top), k)
              == if k in t && k.level <= top && OnPath(i, k) then Climb(t, i, v, k.level) else HashAt(t, k)
    {
    }

    lemma SetPathKeepsShape(t: Nodes, n: nat, i: nat, v: nat)
      requires Shape(t, n) && i < n && PathStored(t, i)
      ensures Shape(SetPath(t, i, v, levels), n)
    {
      SetPathTouchesHashesOnly(t, i, v, levels);
    }

    lemma SetPathReplacesLeaf(t: Nodes, n: nat, i: nat, v: nat)
      requires Shape(t, n) && i < n && PathStored(t, i)
      ensures LeafHashes(SetPath(t, i, v, levels), n) == LeafHashes(t, n)[i := v]
    {
      forall j | 0 <= j < n
        ensures HashAt(SetPath(t, i, v, levels), Key(0, j)) == if j == i then v else HashAt(t, Key(0, j))
      {
        AncestorIsStored(t, n, j, 0);
      }
    }

    /** The cached path is the from-scratch path of the changed leaves exactly when it is fresh. */
    lemma FreshPathAgrees(t: Nodes, n: nat, i: nat, v: nat)
      requires Shape(t, n) && HashOk(t) && i < n && PathStored(t, i)
      ensures PathFresh(t, i) <==> PathAgrees(LeafHashes(t, n)[i := v], i, CachedPath(t, i), levels)
    {
      forall l | 0 <= l < levels
        ensures NodeFresh(t, Key(l, Up(i, l))) <==>
                CachedPath(t, i)[l] == SiblingRoot(LeafHashes(t, n)[i := v], i, l)
      {
        assert CachedPath(t, i)[l] == CachedAt(t, i, l);
        SubRootElsewhere(LeafHashes(t, n), i, v, l, Sibling(Up(i, l)));
        StoredHashIsSubRoot(t, n, l, Sibling(Up(i, l)));
      }
    }

    /** After an update the stored root is right if, and with a collision-free hash only if, the path was fresh. */
    lemma UpdatedRootIsRightExactlyWhenPathFresh(t: Nodes, n: nat, i: nat, v: nat)
      requires Shape(t, n) && HashOk(t) && i < n && PathStored(t, i)
      ensures Key(levels, 0) in SetPath(t, i, v, levels)
      ensures PathFresh(t, i) ==>
                SetPath(t, i, v, levels)[Key(levels, 0)].hash == Root(LeafHashes(t, n)[i := v])
      ensures Injective() && SetPath(t, i, v, levels)[Key(levels, 0)].hash == Root(LeafHashes(t, n)[i := v])
              ==> PathFresh(t, i)
    {
      ShapeStoresPaths(t, n, i);
      FreshPathAgrees(t, n, i, v);
      FoldIsSubRoot(LeafHashes(t, n)[i := v], v, i, CachedPath(t, i), levels);
    }

    // ----- what an append keeps, part of the way up -----

    /**
     The records while leaf n is being added and its ancestors up to `level` are in place:
     the topmost of these is not linked yet.
     */
    ghost predicate ShapeUpTo(t: Nodes, n: nat, level: nat) {
      var top := Key(level, Up(n, level));
      && n < Pow2(levels)
      && level <= levels
      && (forall k :: k in t <==> k.level <= levels && k.index < Width(if k.level <= level then n + 1 else n, k.level))
      && (forall k | k in t && k != top :: t[k].parent == if k.level < levels then Some(ParentKey(k)) else None)
      && (forall k | k in t && k != top :: k.level < levels ==> t[k].siblingHash.Some?)
      && top in t
      && (t[top].parent.Some? ==> t[top].parent == Some(ParentKey(top)) && level < levels)
    }

    ghost predicate HashOkExceptAbove(t: Nodes, n: nat, level: nat) {
      forall k: Key | k != Key(level + 1, Up(n, level + 1)) :: NodeHashOk(t, k)
    }

    ghost predicate FreshExceptAt(t: Nodes, n: nat, level: nat) {
      forall k: Key | !(k.level == level && k.index / 2 == Up(n, level + 1)) :: NodeFresh(t, k)
    }

    /** The first record of an append is the new leaf itself. */
    lemma AppendStarts(t: Nodes, slots: seq<Slot>, leaf: Node)
      requires Shape(t, |slots|) && |slots| < Pow2(levels) && HoldsSlots(t, slots) && leaf.parent.None?
      ensures Key(0, |slots|) !in t
      ensures ShapeUpTo(t[Key(0, |slots|) := leaf], |slots|, 0)
      ensures HoldsSlots(t[Key(0, |slots|) := leaf], slots + [SlotOf(leaf)])
    {
    }

    lemma AppendStartsHashOk(t: Nodes, n: nat, leaf: Node)
      requires HashOk(t) && Key(0, n) !in t
      ensures HashOkExceptAbove(t[Key(0, n) := leaf], n, 0)
    {
      var s := t[Key(0, n) := leaf];
      assert Up(n, 1) == Up(n, 0) / 2 == n / 2;
      assert forall k | k != Key(0, n) :: HashAt(s, k) == HashAt(t, k);
      forall k | k != Key(1, n / 2)
        ensures NodeHashOk(s, k)
      {
        assert NodeHashOk(t, k);
      }
    }

    lemma AppendStartsFresh(t: Nodes, n: nat, leaf: Node)
      requires Fresh(t) && Key(0, n) !in t
      ensures FreshExceptAt(t[Key(0, n) := leaf], n, 0)
    {
      var s := t[Key(0, n) := leaf];
      assert Up(n, 1) == Up(n, 0) / 2 == n / 2;
      assert forall k | k != Key(0, n) :: HashAt(s, k) == HashAt(t, k);
      forall k: Key | !(k.level == 0 && k.index / 2 == n / 2)
        ensures NodeFresh(s, k)
      {
        SiblingOfSibling(k);
        assert NodeFresh(t, k);
      }
    }

    /** Once every level is linked, the records are again a tree, of one leaf more. */
    lemma AppendEnds(t: Nodes, n: nat)
      requires ShapeUpTo(t, n, levels)
      ensures Shape(t, n + 1)
      ensures HashOkExceptAbove(t, n, levels) ==> HashOk(t)
      ensures FreshExceptAt(t, n, levels) ==> Fresh(t)
    {
      assert forall k | k in t && k.level == levels :: k == Key(levels, 0) by {
        WidthIsBounded(n + 1, levels, levels);
      }
      UpIsBounded(n, levels, levels);
      if HashOkExceptAbove(t, n, levels) {
        forall k ensures NodeHashOk(t, k) { }
      }
      if FreshExceptAt(t, n, levels) {
        forall k ensures NodeFresh(t, k) { }
      }
    }

    /**
     One round of an append, record by record: the current node is linked to its parent, it
     and its sibling get each other's hash, and the parent is recomputed or created.
     */
    ghost predicate Linked(t: Nodes, s: Nodes, current: Key, groupId: string)
      requires current in t
    {
      var parent, sibling := ParentKey(current), SiblingKey(current);
      && s.Keys == t.Keys + {parent}
      && (forall k | k in t && k != current && k != parent && k != sibling :: s[k] == t[k])
      && s[current] == t[current].(siblingHash := Some(HashAt(t, sibling)), parent := Some(parent))
      && (sibling in t ==> s[sibling] == t[sibling].(siblingHash := Some(t[current].hash)))
      && s[parent].hash == Combine(current.index, t[current].hash, HashAt(t, sibling))
      && (parent in t ==> s[parent] == t[parent].(hash := s[parent].hash))
      && (parent !in t ==> s[parent] == Node(groupId, -1, s[parent].hash, None, None))
    }

    /** On the way up the left sibling is always stored and the right one never is. */
    lemma SiblingOnTheWayUp(t: Nodes, n: nat, level: nat)
      requires ShapeUpTo(t, n, level) && level < levels
      ensures Key(level, Up(n, level)) in t
      ensures SiblingKey(Key(level, Up(n, level))) in t <==> Up(n, level) % 2 == 1
      ensures Up(n, level) % 2 == 1 ==> ParentKey(Key(level, Up(n, level))) in t
    {
      WidthOfSuccessor(n, level);
      WidthOfSuccessorIsClose(n, level);
    }

    /** Ordering a node and its sibling by parity lists the two children of their parent. */
    lemma ParentOfCombined(t: Nodes, position: nat, level: nat)
      ensures NodeHashOk(t, Key(level + 1, position / 2)) <==>
              (Key(level + 1, position / 2) in t ==>
                t[Key(level + 1, position / 2)].hash
                == Combine(position, HashAt(t, Key(level, position)), HashAt(t, Key(level, Sibling(position)))))
    {
      if position % 2 == 0 {
        assert position == 2 * (position / 2);
      } else {
        assert position == 2 * (position / 2) + 1;
      }
    }

    lemma LinkKeepsKeys(t: Nodes, s: Nodes, n: nat, level: nat, groupId: string)
      requires ShapeUpTo(t, n, level) && level < levels && Linked(t, s, Key(level, Up(n, level)), groupId)
      ensures forall k :: k in s <==>
                k.level <= levels && k.index < Width(if k.level <= level + 1 then n + 1 else n, k.level)
    {
      hide Width, Pow2, Up, Combine, Zero;
      WidthOfSuccessor(n, level + 1);
      WidthOfSuccessorIsClose(n, level + 1);
      var parent := Key(level + 1, Up(n, level + 1));
      PathParent(n, level);
      forall k
        ensures k in s <==> k.level <= levels && k.index < Width(if k.level <= level + 1 then n + 1 else n, k.level)
      {
        assert k in s <==> k in t || k == parent;
      }
    }

    lemma LinkKeepsLinks(t: Nodes, s: Nodes, n: nat, level: nat, groupId: string)
      requires ShapeUpTo(t, n, level) && level < levels && Linked(t, s, Key(level, Up(n, level)), groupId)
      ensures forall k | k in s && k != Key(level + 1, Up(n, level + 1)) ::
                && s[k].parent == (if k.level < levels then Some(ParentKey(k)) else None)
                && (k.level < levels ==> s[k].siblingHash.Some?)
    {
      hide Width, Zero, Combine, Pow2;
    }

    lemma LinkKeepsShape(t: Nodes, s: Nodes, n: nat, level: nat, groupId: string)
      requires ShapeUpTo(t, n, level) && level < levels && Linked(t, s, Key(level, Up(n, level)), groupId)
      ensures ShapeUpTo(s, n, level + 1)
    {
      hide Width, Zero, HashAt, Combine, Pow2;
      LinkKeepsKeys(t, s, n, level, groupId);
      LinkKeepsLinks(t, s, n, level, groupId);
    }

    lemma LinkKeepsHashOk(t: Nodes, s: Nodes, n: nat, level: nat, groupId: string)
      requires Key(level, Up(n, level)) in t && Linked(t, s, Key(level, Up(n, level)), groupId)
      requires HashOkExceptAbove(t, n, level)
      ensures HashOkExceptAbove(s, n, level + 1)
    {
      hide Zero;
      var parent := Key(level + 1, Up(n, level + 1));
      assert forall k | k != parent :: HashAt(s, k) == HashAt(t, k);
      ParentOfCombined(s, Up(n, level), level);
      forall k | k != Key(level + 2, Up(n, level + 2))
        ensures NodeHashOk(s, k)
      {
        assert k != parent ==> NodeHashOk(t, k);
      }
    }

    lemma LinkKeepsFresh(t: Nodes, s: Nodes, n: nat, level: nat, groupId: string)
      requires Key(level, Up(n, level)) in t && Linked(t, s, Key(level, Up(n, level)), groupId)
      requires FreshExceptAt(t, n, level)
      ensures FreshExceptAt(s, n, level + 1)
    {
      var current, parent := Key(level, Up(n, level)), Key(level + 1, Up(n, level + 1));
      assert forall k | k != parent :: HashAt(s, k) == HashAt(t, k);
      forall k: Key | !(k.level == level + 1 && k.index / 2 == Up(n, level + 2))
        ensures NodeFresh(s, k)
      {
        SiblingOfSibling(k);
        assert k != current && k != SiblingKey(current) ==> NodeFresh(t, k);
      }
    }

    /** The parent of the path's node combines that node with its sibling. */
    ghost predicate PathCombines(s: Nodes, n: nat, level: nat) {
      HashAt(s, Key(level + 1, Up(n, level + 1)))
      == Combine(Up(n, level), HashAt(s, Key(level, Up(n, level))), HashAt(s, Key(level, Sibling(Up(n, level)))))
    }

    /** The hashes an append of leaf n with value v has written once its ancestors up to `level` are in place. */
    ghost predicate HashesWritten(t: Nodes, s: Nodes, n: nat, v: nat, level: nat) {
      && HashAt(s, Key(0, n)) == v
      && (forall k | !OnPath(n, k) || k.level > level :: HashAt(s, k) == HashAt(t, k))
      && (forall l | 0 <= l < level :: PathCombines(s, n, l))
    }

    /** The children of these ancestors have fresh copies; all other copies are as they were. */
    ghost predicate CopyWritten(t: Nodes, s: Nodes, n: nat, level: nat, k: Key) {
      && (k in t ==> k in s)
      && (k in s ==> k in t || OnPath(n, k))
      && (k in s && k.level < level && OnPath(n, ParentKey(k)) ==> NodeFresh(s, k))
      && (k in t && !(k.level < level && OnPath(n, ParentKey(k))) ==> s[k].siblingHash == t[k].siblingHash)
    }

    ghost predicate AppendWritten(t: Nodes, s: Nodes, n: nat, v: nat, level: nat) {
      && HashesWritten(t, s, n, v, level)
      && forall k :: CopyWritten(t, s, n, level, k)
    }

    lemma AppendStartsWriting(t: Nodes, n: nat, leaf: Node)
      requires Key(0, n) !in t
      ensures AppendWritten(t, t[Key(0, n) := leaf], n, leaf.hash, 0)
    {
    }

    lemma LinkWritesHashes(start: Nodes, t: Nodes, s: Nodes, n: nat, v: nat, level: nat, groupId: string)
      requires Key(level, Up(n, level)) in t && Linked(t, s, Key(level, Up(n, level)), groupId)
      requires HashesWritten(start, t, n, v, level)
      ensures HashesWritten(start, s, n, v, level + 1)
      ensures forall k | k != Key(level + 1, Up(n, level + 1)) :: HashAt(s, k) == HashAt(t, k)
    {
      hide Zero, Combine, Up;
      PathParent(n, level);
      assert forall k | k != Key(level + 1, Up(n, level + 1)) :: HashAt(s, k) == HashAt(t, k);
      forall l | 0 <= l < level + 1 ensures PathCombines(s, n, l) {
        assert l < level ==> PathCombines(t, n, l);
      }
    }

    lemma LinkWritesCopy(start: Nodes, t: Nodes, s: Nodes, n: nat, level: nat, groupId: string, k: Key)
      requires Key(level, Up(n, level)) in t && Linked(t, s, Key(level, Up(n, level)), groupId)
      requires CopyWritten(start, t, n, level, k)
      requires forall k | k != Key(level + 1, Up(n, level + 1)) :: HashAt(s, k) == HashAt(t, k)
      ensures CopyWritten(start, s, n, level + 1, k)
    {
      hide Zero, Combine, Up;
      PathParent(n, level);
      SiblingOfSibling(k);
      if k.level == level {
        SameParent(k, Key(level, Up(n, level)));
      }
    }

    lemma SameParent(k: Key, j: Key)
      requires k.level == j.level
      ensures ParentKey(k) == ParentKey(j) <==> k == j || k == SiblingKey(j)
    {
    }

    lemma LinkWritesOneLevel(start: Nodes, t: Nodes, s: Nodes, n: nat, v: nat, level: nat, groupId: string)
      requires Key(level, Up(n, level)) in t && Linked(t, s, Key(level, Up(n, level)), groupId)
      requires AppendWritten(start, t, n, v, level)
      ensures AppendWritten(start, s, n, v, level + 1)
    {
      hide Linked, HashesWritten, CopyWritten, Up;
      LinkWritesHashes(start, t, s, n, v, level, groupId);
      var next := level + 1;
      forall k ensures CopyWritten(start, s, n, next, k) {
        LinkWritesCopy(start, t, s, n, level, groupId, k);
      }
    }

    lemma LeafCountOfShape(t: Nodes, n: nat)
      requires Shape(t, n)
      ensures LeafCount(t) == n
      ensures forall i | 0 <= i < n :: Key(0, i) in t
    {
      FirstKeysCount((set k | k in t && k.level == 0), n);
    }

    /** What the climb of an update finds at one level. */
    lemma SetPathAtNode(t: Nodes, n: nat, i: nat, v: nat, level: nat)
      requires Shape(t, n) && i < n && PathStored(t, i) && level <= levels
      ensures
        var s, node := SetPath(t, i, v, level), Key(level, Up(i, level));
        && node in s
        && s[node].hash == Climb(t, i, v, level)
        && s[node].parent == (if level < levels then Some(ParentKey(node)) else None)
        && (level < levels ==> s[node].siblingHash == Some(CachedAt(t, i, level)))
    {
      hide SetPath, Climb;
      AncestorIsStored(t, n, i, level);
      HashAfterSetPath(t, i, v, level, Key(level, Up(i, level)));
      SetPathTouchesHashesOnly(t, i, v, level);
    }

    /** What the next write of the climb makes of it. */
    lemma SetPathNextLevel(t: Nodes, n: nat, i: nat, v: nat, level: nat)
      requires Shape(t, n) && i < n && PathStored(t, i) && level < levels
      ensures
        var s, parent := SetPath(t, i, v, level), Key(level + 1, Up(i, level + 1));
        && parent == ParentKey(Key(level, Up(i, level)))
        && parent in s
        && SetPath(t, i, v, level + 1)
           == s[parent := s[parent].(hash := Combine(Up(i, level), Climb(t, i, v, level), CachedAt(t, i, level)))]
    {
      hide Shape, SetPath, Climb, CachedAt, PathStored, Up, OnPath;
      AncestorIsStored(t, n, i, level + 1);
      PathParent(i, level);
      var parent := Key(level + 1, Up(i, level + 1));
      SetPathTouchesHashesOnly(t, i, v, level);
      SetPathTouchesHashesOnly(t, i, v, level + 1);
      forall k | k in t && k != parent ensures SetPath(t, i, v, level + 1)[k] == SetPath(t, i, v, level)[k] {
        SetPathRecord(t, i, v, level, k);
        SetPathRecord(t, i, v, level + 1, k);
        PathHasOneNode(i, k, parent);
      }
      SetPathRecord(t, i, v, level + 1, parent);
      PathHasOneNode(i, parent, parent);
      ClimbStep(t, i, v, level);
    }

    lemma CachedPathAt(t: Nodes, i: nat, level: nat)
      requires PathStored(t, i) && level < levels
      ensures CachedPath(t, i)[level] == CachedAt(t, i, level)
    {
    }

    lemma ClimbStep(t: Nodes, i: nat, v: nat, level: nat)
      requires PathStored(t, i) && level < levels
      ensures Climb(t, i, v, level + 1) == Combine(Up(i, level), Climb(t, i, v, level), CachedAt(t, i, level))
    {
    }

    lemma SetPathRecord(t: Nodes, i: nat, v: nat, top: nat, k: Key)
      requires PathStored(t, i) && top <= levels && k in t
      ensures k in SetPath(t, i, v, top)
      ensures SetPath(t, i, v, top)[k] ==
              if k.level <= top && OnPath(i, k) then t[k].(hash := Climb(t, i, v, k.level)) else t[k]
    {
    }

    lemma SetPathStarts(t: Nodes, i: nat, v: nat)
      requires PathStored(t, i) && Key(0, i) in t
      ensures SetPath(t, i, v, 0) == t[Key(0, i) := t[Key(0, i)].(hash := v)]
    {
    }

    lemma LinkKeepsSlots(t: Nodes, s: Nodes, current: Key, groupId: string, slots: seq<Slot>)
      requires current in t && Linked(t, s, current, groupId) && HoldsSlots(t, slots)
      ensures HoldsSlots(s, slots)
    {
    }

    lemma SetPathHoldsSlots(t: Nodes, i: nat, v: nat, slots: seq<Slot>)
      requires PathStored(t, i) && i < |slots| && HoldsSlots(t, slots)
      ensures HoldsSlots(SetPath(t, i, v, levels), slots[i := slots[i].(hash := v)])
    {
      SetPathTouchesHashesOnly(t, i, v, levels);
    }

    lemma LeafHashesOfSlots(t: Nodes, slots: seq<Slot>)
      requires HoldsSlots(t, slots)
      ensures LeafHashes(t, |slots|) == Hashes(slots)
    {
    }

    lemma SlotsAreReadBack(t: Nodes, slots: seq<Slot>)
      requires HoldsSlots(t, slots)
      ensures forall i | 0 <= i < |slots| :: Key(0, i) in t
      ensures ReadSlots(t, |slots|) == slots
    {
    }
  }
}
