/** The server's user service: the object that owns the stored Merkle tree. */
module UserServices {
  import opened Prelude
  import opened MerkleTree
  import opened LeafExchange
  import opened MerkleRuns
  import opened MixedRuns

  datatype GroupMember = GroupMember(index: int, identityCommitment: nat)

  datatype BannedUser = BannedUser(idCommitment: nat, leafIndex: nat, secret: nat)

  datatype Error = ZerosMissing | TreeFull | RootNotFound | UserNotFound | AlreadyBanned

  /** Commitment, leaf and secret are each unique among the ban records. */
  predicate BanConflicts(records: seq<BannedUser>, record: BannedUser) {
    exists i | 0 <= i < |records| ::
      || records[i].idCommitment == record.idCommitment
      || records[i].leafIndex == record.leafIndex
      || records[i].secret == record.secret
  }

  predicate IsMember(slots: seq<Slot>, groupId: string, index: int) {
    exists i | 0 <= i < |slots| :: slots[i].groupId == groupId && slots[i].indexInGroup == index
  }

  lemma MembershipIsKept(slots: seq<Slot>, longer: seq<Slot>, groupId: string, index: int)
    requires slots <= longer && IsMember(slots, groupId, index)
    ensures IsMember(longer, groupId, index)
  {
    var i :| 0 <= i < |slots| && slots[i].groupId == groupId && slots[i].indexInGroup == index;
    assert longer[i] == slots[i];
  }

  /** The leaves after one user was offered: a known one is skipped, and a full tree refuses. */
  function Added(slots: seq<Slot>, user: GroupMember, groupId: string, capacity: nat): Option<seq<Slot>> {
    if IsMember(slots, groupId, user.index) then Some(slots)
    else if |slots| >= capacity then None
    else Some(slots + [Slot(groupId, user.index, user.identityCommitment)])
  }

  /** The leaves after the users were offered in order; a refusal ends it. */
  function Appended(slots: seq<Slot>, users: seq<GroupMember>, groupId: string, capacity: nat): seq<Slot>
    decreases |users|
  {
    if users == [] then slots
    else
      match Added(slots, users[0], groupId, capacity)
      case None => slots
      case Some(more) => Appended(more, users[1..], groupId, capacity)
  }

  lemma AddedBecomesMember(slots: seq<Slot>, user: GroupMember, groupId: string, capacity: nat)
    ensures var r := Added(slots, user, groupId, capacity);
            if r.Some? then slots <= r.value && IsMember(r.value, groupId, user.index)
            else !IsMember(slots, groupId, user.index)
  {
    var more := slots + [Slot(groupId, user.index, user.identityCommitment)];
    assert more[|slots|].groupId == groupId;
  }

  /** Each user of a group has at most one leaf. */
  ghost predicate OneLeafPerUser(slots: seq<Slot>) {
    forall i, j | 0 <= i < j < |slots| ::
      slots[i].groupId != slots[j].groupId || slots[i].indexInGroup != slots[j].indexInGroup
  }

  /** Leaves are never moved or dropped, none is added beyond the capacity, and no user gets two. */
  lemma {:induction false} AppendedOnlyExtends(slots: seq<Slot>, users: seq<GroupMember>, groupId: string,
                                               capacity: nat)
    ensures slots <= Appended(slots, users, groupId, capacity)
    ensures |slots| <= capacity ==> |Appended(slots, users, groupId, capacity)| <= capacity
    ensures OneLeafPerUser(slots) ==> OneLeafPerUser(Appended(slots, users, groupId, capacity))
    decreases |users|
  {
    if users != [] {
      var r := Added(slots, users[0], groupId, capacity);
      if r.Some? { AppendedOnlyExtends(r.value, users[1..], groupId, capacity); }
    }
  }

  /** Offering the same users again changes nothing, also when the tree was full. */
  lemma {:induction false} AppendedIsIdempotent(slots: seq<Slot>, users: seq<GroupMember>, groupId: string,
                                                capacity: nat)
    ensures Appended(Appended(slots, users, groupId, capacity), users, groupId, capacity)
            == Appended(slots, users, groupId, capacity)
    decreases |users|
  {
    if users != [] {
      var r := Added(slots, users[0], groupId, capacity);
      if r.Some? {
        AppendedIsIdempotent(r.value, users[1..], groupId, capacity);
        AppendedOnlyExtends(r.value, users[1..], groupId, capacity);
        AddedBecomesMember(slots, users[0], groupId, capacity);
        MembershipIsKept(r.value, Appended(slots, users, groupId, capacity), groupId, users[0].index);
      }
    }
  }

  ghost predicate SameUsers(slots: seq<Slot>, others: seq<Slot>) {
    && |slots| == |others|
    && forall i | 0 <= i < |slots| ::
         slots[i].groupId == others[i].groupId && slots[i].indexInGroup == others[i].indexInGroup
  }

  /** What is appended does not depend on the hashes in the leaves, so a zeroed leaf is never refilled. */
  lemma {:induction false} AppendedIgnoresHashes(slots: seq<Slot>, others: seq<Slot>, users: seq<GroupMember>,
                                                 groupId: string, capacity: nat)
    requires SameUsers(slots, others)
    ensures |slots| <= |Appended(slots, users, groupId, capacity)|
    ensures Appended(others, users, groupId, capacity) == others + Appended(slots, users, groupId, capacity)[|slots|..]
    decreases |users|
  {
    if users != [] {
      SameUsersSameMembers(slots, others, groupId, users[0].index);
      var r, q := Added(slots, users[0], groupId, capacity), Added(others, users[0], groupId, capacity);
      if r.Some? {
        AppendedIgnoresHashes(r.value, q.value, users[1..], groupId, capacity);
        AppendedOnlyExtends(r.value, users[1..], groupId, capacity);
      }
    }
  }

  lemma SameUsersSameMembers(slots: seq<Slot>, others: seq<Slot>, groupId: string, index: int)
    requires SameUsers(slots, others)
    ensures IsMember(slots, groupId, index) <==> IsMember(others, groupId, index)
  {
  }

  // ----- removals -----

  /** The first leaf of a user of a group. */
  function FirstMember(slots: seq<Slot>, groupId: string, index: int): (r: Option<nat>)
    ensures r.Some? ==> r.value < |slots| && slots[r.value].groupId == groupId && slots[r.value].indexInGroup == index
    ensures forall j | 0 <= j < (if r.Some? then r.value else |slots|) ::
              slots[j].groupId != groupId || slots[j].indexInGroup != index
    ensures r.Some? <==> IsMember(slots, groupId, index)
  {
    if slots == [] then None
    else
      var r := FirstMember(slots[..|slots| - 1], groupId, index);
      if r.Some? then r
      else if slots[|slots| - 1].groupId == groupId && slots[|slots| - 1].indexInGroup == index then Some(|slots| - 1)
      else None
  }

  /** A run of removals: the leaves, the updates of the tree, and whether a missing user ended it. */
  datatype Removal = Removal(slots: seq<Slot>, updates: seq<Update>, failed: bool)

  /** Each removal zeroes the first leaf that has the same hash as the user's. */
  function Removed(slots: seq<Slot>, indexes: seq<int>, groupId: string, zeroValue: nat): (r: Removal)
    ensures |r.slots| == |slots| && forall u | u in r.updates :: u.leaf < |slots|
    decreases |indexes|
  {
    if indexes == [] then Removal(slots, [], false)
    else
      var before := Removed(slots, indexes[..|indexes| - 1], groupId, zeroValue);
      if before.failed then before
      else
        match FirstMember(before.slots, groupId, indexes[|indexes| - 1])
        case None => before.(failed := true)
        case Some(i) =>
          var target := FirstLeaf(before.slots, before.slots[i].hash).value;
          Removal(before.slots[target := before.slots[target].(hash := zeroValue)],
                  before.updates + [Update(target, zeroValue)], false)
  }

  lemma NothingRemoved(slots: seq<Slot>, groupId: string, zeroValue: nat)
    ensures Removed(slots, [], groupId, zeroValue) == Removal(slots, [], false)
  {
  }

  lemma NoUpdates(c: TreeConfig, t: Nodes, n: nat)
    requires c.Shape(t, n)
    ensures Updatable(c, t, n, []) && AfterUpdates(c, t, n, []) == t && Rewrites([]) == []
  {
    hide c.Shape;
  }

  lemma RemovedOneMore(slots: seq<Slot>, indexes: seq<int>, i: nat, groupId: string, zeroValue: nat)
    requires i < |indexes| && !Removed(slots, indexes[..i], groupId, zeroValue).failed
    ensures var before := Removed(slots, indexes[..i], groupId, zeroValue);
            var r := Removed(slots, indexes[..i + 1], groupId, zeroValue);
            match FirstMember(before.slots, groupId, indexes[i])
            case None => r == before.(failed := true)
            case Some(k) =>
              var target := FirstLeaf(before.slots, before.slots[k].hash).value;
              r == Removal(before.slots[target := before.slots[target].(hash := zeroValue)],
                           before.updates + [Update(target, zeroValue)], false)
  {
    assert indexes[..i + 1][..i] == indexes[..i];
  }

  lemma {:induction false} RemovedEndsWithFailure(slots: seq<Slot>, indexes: seq<int>, k: nat, groupId: string,
                                                  zeroValue: nat)
    requires k <= |indexes| && Removed(slots, indexes[..k], groupId, zeroValue).failed
    ensures Removed(slots, indexes, groupId, zeroValue) == Removed(slots, indexes[..k], groupId, zeroValue)
    decreases |indexes|
  {
    if k == |indexes| {
      assert indexes[..k] == indexes;
    } else {
      var rest := indexes[..|indexes| - 1];
      assert rest[..k] == indexes[..k];
      RemovedEndsWithFailure(slots, rest, k, groupId, zeroValue);
    }
  }

  ghost predicate AllMembers(slots: seq<Slot>, groupId: string, indexes: seq<int>) {
    forall index | index in indexes :: IsMember(slots, groupId, index)
  }

  /**
     Removals end at the first index that no user has, and fail exactly if there is one. They
     move no leaf, and change no hash but to the zero value. Each makes one update.
   */
  lemma {:induction false} RemovalsEndAtTheFirstMissing(slots: seq<Slot>, indexes: seq<int>, groupId: string,
                                                        zeroValue: nat, k: nat)
    requires k <= |indexes| && AllMembers(slots, groupId, indexes[..k])
    requires k < |indexes| ==> !IsMember(slots, groupId, indexes[k])
    ensures
      var r := Removed(slots, indexes, groupId, zeroValue);
      && (r.failed <==> k < |indexes|) && |r.updates| == k
      && SameUsers(slots, r.slots)
      && forall i | 0 <= i < |slots| :: r.slots[i].hash == slots[i].hash || r.slots[i].hash == zeroValue
    decreases |indexes|
  {
    hide IsMember;
    if indexes != [] {
      var rest, last := indexes[..|indexes| - 1], indexes[|indexes| - 1];
      if k == |indexes| {
        assert rest == indexes[..k - 1] && last in indexes[..k];
        assert rest[..k - 1] == rest;
        assert forall index | index in rest :: index in indexes[..k];
        RemovalsEndAtTheFirstMissing(slots, rest, groupId, zeroValue, k - 1);
        SameUsersSameMembers(slots, Removed(slots, rest, groupId, zeroValue).slots, groupId, last);
      } else {
        assert rest[..k] == indexes[..k];
        RemovalsEndAtTheFirstMissing(slots, rest, groupId, zeroValue, k);
        SameUsersSameMembers(slots, Removed(slots, rest, groupId, zeroValue).slots, groupId, last);
      }
    }
  }

  /** A removal zeroes the user's own leaf exactly when no earlier leaf holds the same hash. */
  lemma RemovalHitsTheUserExactlyWhenFirst(slots: seq<Slot>, index: int, groupId: string, zeroValue: nat)
    requires IsMember(slots, groupId, index)
    ensures var i := FirstMember(slots, groupId, index).value;
            Removed(slots, [index], groupId, zeroValue).updates == [Update(i, zeroValue)]
            <==> forall j | 0 <= j < i :: slots[j].hash != slots[i].hash
  {
    hide Removed;
    NothingRemoved(slots, groupId, zeroValue);
    assert [index][..0] == [] && [index][..1] == [index];
    RemovedOneMore(slots, [index], 0, groupId, zeroValue);
    var i := FirstMember(slots, groupId, index).value;
    assert Removed(slots, [index], groupId, zeroValue).updates
           == [Update(FirstLeaf(slots, slots[i].hash).value, zeroValue)];
  }

  /**
     Removing several users from a tree whose copies are fresh leaves the stored root of the
     leaves with only the last one removed.
   */
  lemma RemovingSeveralShowsOnlyTheLast(c: TreeConfig, t: Nodes, slots: seq<Slot>, indexes: seq<int>, groupId: string)
    requires c.Shape(t, |slots|) && HoldsSlots(t, slots) && c.HashOk(t) && c.Fresh(t)
    requires Removed(slots, indexes, groupId, c.zeroValue).updates != []
    ensures var r := Removed(slots, indexes, groupId, c.zeroValue);
            var s := AfterUpdates(c, t, |slots|, r.updates);
            && Key(c.levels, 0) in s
            && s[Key(c.levels, 0)].hash == c.Root(Hashes(slots)[r.updates[|r.updates| - 1].leaf := c.zeroValue])
  {
    hide c.Shape, c.HashOk, c.Fresh, HoldsSlots;
    var r := Removed(slots, indexes, groupId, c.zeroValue);
    RemovalsWriteZeros(slots, indexes, groupId, c.zeroValue);
    FreshTreeShowsTheLastUpdate(c, t, |slots|, r.updates);
    c.LeafHashesOfSlots(t, slots);
  }

  lemma {:induction false} RemovalsWriteZeros(slots: seq<Slot>, indexes: seq<int>, groupId: string, zeroValue: nat)
    ensures forall u | u in Removed(slots, indexes, groupId, zeroValue).updates :: u.value == zeroValue
    decreases |indexes|
  {
    if indexes != [] {
      RemovalsWriteZeros(slots, indexes[..|indexes| - 1], groupId, zeroValue);
    }
  }

  lemma NoAppends(slots: seq<Slot>)
    ensures AppendsOf(slots, slots) == []
  {
  }

  lemma SlotIsStored(t: Nodes, slots: seq<Slot>, i: nat)
    requires HoldsSlots(t, slots) && i < |slots|
    ensures Key(0, i) in t && t[Key(0, i)].hash == slots[i].hash
  {
  }

  class UserService {
    const config: TreeConfig
    var zeros: seq<nat>
    var nodes: Nodes
    var bannedUsers: seq<BannedUser>
    ghost var leaves: seq<Slot>
    /** All writes of the tree so far. */
    ghost var history: seq<Op>

    ghost predicate Valid()
      reads this`zeros, this`nodes, this`leaves, this`history
    {
      && (zeros == [] || zeros == config.ZeroTable())
      && config.Shape(nodes, |leaves|)
      && HoldsSlots(nodes, leaves)
      && Leaves(history) == |leaves| && Reached(config, nodes, history)
    }

    constructor (config: TreeConfig)
      ensures Valid() && this.config == config
      ensures zeros == [] && bannedUsers == [] && leaves == [] && history == []
      ensures config.HashOk(nodes) && config.Fresh(nodes)
    {
      this.config := config;
      zeros, nodes, bannedUsers, leaves, history := [], map[], [], [], [];
      new;
      forall level: nat ensures Width(0, level) == 0 { config.WidthOfNothing(level); }
    }

    /** Fills the table of empty-subtree hashes, once. */
    method SeedZeros()
      requires Valid()
      modifies this`zeros
      ensures Valid() && zeros == config.ZeroTable()
    {
      if zeros == [] {
        var zeroValue := config.zeroValue;
        for level := 0 to config.levels
          invariant zeros == config.ZeroTable()[..level]
          invariant zeroValue == config.Zero(if level == 0 then 0 else level - 1)
        {
          zeroValue := if level == 0 then zeroValue else config.hash(zeroValue, zeroValue);
          zeros := zeros + [zeroValue];
        }
      }
    }

    /** One round of an append: links a node to its parent and to its left sibling, if any. */
    method LinkToParent(current: Key, groupId: string)
      requires zeros == config.ZeroTable() && current.level < config.levels && current in nodes
      requires SiblingKey(current) in nodes <==> current.index % 2 == 1
      requires current.index % 2 == 1 ==> ParentKey(current) in nodes
      modifies this`nodes
      ensures config.Linked(old(nodes), nodes, current, groupId)
    {
      var parent := ParentKey(current);
      if current.index % 2 == 0 {
        var siblingHash := zeros[current.level];
        var hash := config.hash(nodes[current].hash, siblingHash);
        var parentNode := if parent in nodes then nodes[parent].(hash := hash)
                          else Node(groupId, -1, hash, None, None);
        nodes := nodes[current := nodes[current].(siblingHash := Some(siblingHash), parent := Some(parent))]
                      [parent := parentNode];
      } else {
        var sibling := Key(current.level, current.index - 1);
        var hash := config.hash(nodes[sibling].hash, nodes[current].hash);
        nodes := nodes[current := nodes[current].(siblingHash := Some(nodes[sibling].hash), parent := Some(parent))]
                      [parent := nodes[parent].(hash := hash)]
                      [sibling := nodes[sibling].(siblingHash := Some(nodes[current].hash))];
      }
    }

    /** The number of records at level 0. */
    method GetTotalNumberOfLeaves() returns (n: nat)
      requires Valid()
      ensures n == |leaves|
    {
      config.LeafCountOfShape(nodes, |leaves|);
      return LeafCount(nodes);
    }

    /** Adds one leaf to the right of all others and recomputes its path to the root. */
    method AppendLeaf(n: nat, groupId: string, indexInGroup: int, commitment: nat)
      requires Valid() && zeros == config.ZeroTable() && n == |leaves| < Pow2(config.levels)
      modifies this`nodes, this`leaves, this`history
      ensures Valid() && leaves == old(leaves) + [Slot(groupId, indexInGroup, commitment)]
      ensures history == old(history) + [Append(n, commitment)]
      ensures old(config.HashOk(nodes)) ==> config.HashOk(nodes)
      ensures old(config.Fresh(nodes)) ==> config.Fresh(nodes)
    {
      hide config.Shape, config.ShapeUpTo, config.HashOk, config.Fresh, config.HashOkExceptAbove,
           config.FreshExceptAt, config.Linked, config.AppendWritten, HoldsSlots, Reached, Leaves;
      var current := Key(0, n);
      ghost var wasHashOk, wasFresh := config.HashOk(nodes), config.Fresh(nodes);
      var leaf := Node(groupId, indexInGroup, commitment, None, None);
      config.AppendStarts(nodes, leaves, leaf);
      config.AppendStartsWriting(nodes, n, leaf);
      if wasHashOk { config.AppendStartsHashOk(nodes, n, leaf); }
      if wasFresh { config.AppendStartsFresh(nodes, n, leaf); }
      nodes := nodes[current := leaf];
      leaves := leaves + [Slot(groupId, indexInGroup, commitment)];
      for level := 0 to config.levels
        invariant leaves == old(leaves) + [SlotOf(leaf)] && history == old(history)
        invariant current == Key(level, Up(n, level))
        invariant config.ShapeUpTo(nodes, n, level)
        invariant config.AppendWritten(old(nodes), nodes, n, commitment, level)
        invariant wasHashOk ==> config.HashOkExceptAbove(nodes, n, level)
        invariant wasFresh ==> config.FreshExceptAt(nodes, n, level)
        invariant HoldsSlots(nodes, leaves)
      {
        ghost var before := nodes;
        config.SiblingOnTheWayUp(nodes, n, level);
        LinkToParent(current, groupId);
        config.LinkKeepsShape(before, nodes, n, level, groupId);
        config.LinkWritesOneLevel(old(nodes), before, nodes, n, commitment, level, groupId);
        config.LinkKeepsSlots(before, nodes, current, groupId, leaves);
        if wasHashOk { config.LinkKeepsHashOk(before, nodes, n, level, groupId); }
        if wasFresh { config.LinkKeepsFresh(before, nodes, n, level, groupId); }
        current := ParentKey(current);
      }
      config.AppendEnds(nodes, n);
      ReachedOneMore(config, old(nodes), nodes, history, Append(n, commitment));
      history := history + [Append(n, commitment)];
    }

    method FindLeafByGroupIdAndIndexInGroup(groupId: string, index: int) returns (leaf: Option<nat>)
      requires Valid()
      ensures leaf == FirstMember(leaves, groupId, index)
    {
      var n := GetTotalNumberOfLeaves();
      config.SlotsAreReadBack(nodes, leaves);
      leaf := FirstMember(ReadSlots(nodes, n), groupId, index);
    }

    /** Offers one user to the tree. */
    method AppendUser(user: GroupMember, groupId: string) returns (ok: bool)
      requires Valid() && zeros == config.ZeroTable()
      modifies this`nodes, this`leaves, this`history
      ensures Valid()
      ensures Added(old(leaves), user, groupId, Pow2(config.levels)) == if ok then Some(leaves) else None
      ensures !ok ==> leaves == old(leaves)
      ensures leaves == old(leaves) ==> nodes == old(nodes)
      ensures old(leaves) <= leaves && history == old(history) + AppendsOf(old(leaves), leaves)
      ensures old(config.HashOk(nodes)) ==> config.HashOk(nodes)
      ensures old(config.Fresh(nodes)) ==> config.Fresh(nodes)
    {
      hide config.Shape, config.HashOk, config.Fresh, Reached;
      var found := FindLeafByGroupIdAndIndexInGroup(groupId, user.index);
      if found.Some? { return true; }
      var count := GetTotalNumberOfLeaves();
      if count >= Pow2(config.levels) { return false; }
      AppendLeaf(count, groupId, user.index, user.identityCommitment);
      return true;
    }

    /**
     Appends the users that are not in the tree yet. A full tree throws, and the users
     appended before that stay.
     */
    method AppendUsers(users: seq<GroupMember>, groupId: string) returns (r: Result<string, Error>)
      requires Valid()
      modifies this`nodes, this`leaves, this`history
      ensures Valid()
      ensures users == [] ==> r == Ok("") && nodes == old(nodes) && leaves == old(leaves)
      ensures users != [] && zeros == [] ==> r == Err(ZerosMissing) && nodes == old(nodes) && leaves == old(leaves)
      ensures users != [] && zeros != [] ==>
                && leaves == Appended(old(leaves), users, groupId, Pow2(config.levels))
                && r == if (forall u | u in users :: IsMember(leaves, groupId, u.index)) then Ok("Done")
                     else Err(TreeFull)
      ensures leaves == old(leaves) ==> nodes == old(nodes)
      ensures old(leaves) <= leaves && history == old(history) + AppendsOf(old(leaves), leaves)
      ensures old(config.HashOk(nodes)) ==> config.HashOk(nodes)
      ensures old(config.Fresh(nodes)) ==> config.Fresh(nodes)
    {
      hide config.Shape, config.HashOk, config.Fresh, IsMember, HoldsSlots, Reached, AppendsOf;
      NoAppends(leaves);
      if users == [] { return Ok(""); }
      if zeros == [] { return Err(ZerosMissing); }
      for i := 0 to |users|
        invariant Valid() && zeros == old(zeros) && old(leaves) <= leaves
        invariant leaves == old(leaves) ==> nodes == old(nodes)
        invariant history == old(history) + AppendsOf(old(leaves), leaves)
        invariant Appended(old(leaves), users, groupId, Pow2(config.levels))
                  == Appended(leaves, users[i..], groupId, Pow2(config.levels))
        invariant forall j | 0 <= j < i :: IsMember(leaves, groupId, users[j].index)
        invariant old(config.HashOk(nodes)) ==> config.HashOk(nodes)
        invariant old(config.Fresh(nodes)) ==> config.Fresh(nodes)
      {
        assert users[i..][1..] == users[i + 1..];
        AddedBecomesMember(leaves, users[i], groupId, Pow2(config.levels));
        ghost var before := leaves;
        var ok := AppendUser(users[i], groupId);
        AppendsInTurn(old(leaves), before, leaves);
        if !ok {
          return Err(TreeFull);
        }
        forall j | 0 <= j < i ensures IsMember(leaves, groupId, users[j].index) {
          MembershipIsKept(before, leaves, groupId, users[j].index);
        }
      }
      return Ok("Done");
    }

    /**
     Writes a new value into leaf i and recomputes its path, reading the cached sibling
     hashes and refreshing none.
     */
    method RecomputePath(i: nat, newValue: nat)
      requires Valid() && i < |leaves|
      modifies this`nodes
      ensures config.PathStored(old(nodes), i)
      ensures nodes == config.SetPath(old(nodes), i, newValue, config.levels)
    {
      hide config.Shape, config.SetPath, config.Climb, config.CachedAt, config.PathStored, HoldsSlots;
      ghost var t, n := nodes, |leaves|;
      config.ShapeStoresPaths(t, n, i);
      config.AncestorIsStored(t, n, i, 0);
      config.SetPathStarts(t, i, newValue);
      config.SetPathAtNode(t, n, i, newValue, 0);
      var node := Key(0, i);
      nodes := nodes[node := nodes[node].(hash := newValue)];
      while nodes[node].parent.Some?
        invariant node == Key(node.level, Up(i, node.level)) && node.level <= config.levels
        invariant nodes == config.SetPath(t, i, newValue, node.level) && node in nodes
        decreases config.levels - node.level
      {
        config.SetPathAtNode(t, n, i, newValue, node.level);
        config.SetPathNextLevel(t, n, i, newValue, node.level);
        config.SetPathAtNode(t, n, i, newValue, node.level + 1);
        var siblingHash := nodes[node].siblingHash.value;
        var parent := ParentKey(node);
        var hash := if node.index % 2 == 0 then config.hash(nodes[node].hash, siblingHash)
                    else config.hash(siblingHash, nodes[node].hash);
        nodes := nodes[parent := nodes[parent].(hash := hash)];
        node := parent;
      }
      config.SetPathAtNode(t, n, i, newValue, node.level);
    }

    /** Gives the first leaf with the given hash a new value. */
    method UpdateUser(leafHash: nat, newValue: nat) returns (r: Result<(), Error>)
      requires Valid()
      modifies this`nodes, this`leaves, this`history
      ensures Valid()
      ensures r == if FirstLeaf(old(leaves), leafHash).Some? then Ok(()) else Err(UserNotFound)
      ensures r.Err? ==> nodes == old(nodes) && leaves == old(leaves) && history == old(history)
      ensures r.Ok? ==>
                var i := FirstLeaf(old(leaves), leafHash).value;
                && old(config.PathStored(nodes, i))
                && nodes == config.SetPath(old(nodes), i, newValue, config.levels)
                && leaves == old(leaves)[i := old(leaves)[i].(hash := newValue)]
                && history == old(history) + [Rewrite(i, newValue)]
    {
      hide config.Shape, config.SetPath, config.Climb, config.CachedAt, config.PathStored, HoldsSlots, Reached;
      var n := GetTotalNumberOfLeaves();
      config.SlotsAreReadBack(nodes, leaves);
      var leaf := FirstLeaf(ReadSlots(nodes, n), leafHash);
      if leaf.None? {
        return Err(UserNotFound);
      }
      RecomputePath(leaf.value, newValue);
      config.SetPathKeepsShape(old(nodes), n, leaf.value, newValue);
      config.SetPathHoldsSlots(old(nodes), leaf.value, newValue, leaves);
      ReachedOneMore(config, old(nodes), nodes, history, Rewrite(leaf.value, newValue));
      leaves := leaves[leaf.value := leaves[leaf.value].(hash := newValue)];
      history := history + [Rewrite(leaf.value, newValue)];
      return Ok(());
    }

    /**
     Removes users by their index in a group. A missing user throws, and the users removed
     before it stay removed.
     */
    method RemoveUsersByIndexes(indexes: seq<int>, groupId: string) returns (r: Result<string, Error>)
      requires Valid()
      modifies this`nodes, this`leaves, this`history
      ensures Valid()
      ensures indexes == [] ==> r == Ok("") && nodes == old(nodes) && leaves == old(leaves) && history == old(history)
      ensures indexes != [] && zeros == [] ==> r == Err(ZerosMissing) && nodes == old(nodes) && leaves == old(leaves)
      ensures indexes != [] && zeros != [] ==>
                var removed := Removed(old(leaves), indexes, groupId, config.zeroValue);
                && r == (if removed.failed then Err(UserNotFound) else Ok("Done"))
                && leaves == removed.slots
                && Updatable(config, old(nodes), |leaves|, removed.updates)
                && nodes == AfterUpdates(config, old(nodes), |leaves|, removed.updates)
                && history == old(history) + Rewrites(removed.updates)
    {
      hide config.Shape, config.SetPath, HoldsSlots, config.PathStored, IsMember, Reached, Leaves, Removed, FirstLeaf,
           FirstMember, AfterUpdates, Rewrites;
      if indexes == [] { return Ok(""); }
      if zeros == [] { return Err(ZerosMissing); }
      NothingRemoved(leaves, groupId, config.zeroValue);
      NoUpdates(config, nodes, |leaves|);
      ghost var t, n := nodes, |leaves|;
      for i := 0 to |indexes|
        invariant Valid() && zeros == old(zeros)
        invariant var removed := Removed(old(leaves), indexes[..i], groupId, config.zeroValue);
                  && !removed.failed && leaves == removed.slots
                  && Updatable(config, t, n, removed.updates)
                  && nodes == AfterUpdates(config, t, n, removed.updates)
                  && history == old(history) + Rewrites(removed.updates)
      {
        RemovedOneMore(old(leaves), indexes, i, groupId, config.zeroValue);
        ghost var before := Removed(old(leaves), indexes[..i], groupId, config.zeroValue);
        var found := FindLeafByGroupIdAndIndexInGroup(groupId, indexes[i]);
        if found.None? {
          RemovedEndsWithFailure(old(leaves), indexes, i + 1, groupId, config.zeroValue);
          return Err(UserNotFound);
        }
        SlotIsStored(nodes, leaves, found.value);
        var updated := UpdateUser(nodes[Key(0, found.value)].hash, config.zeroValue);
        ghost var update := Update(FirstLeaf(before.slots, before.slots[found.value].hash).value, config.zeroValue);
        AfterOneMoreUpdate(config, t, n, before.updates, update);
        RewritesOneMore(before.updates, update);
      }
      assert indexes[..|indexes|] == indexes;
      return Ok("Done");
    }

    /** Records a ban, unless it repeats a recorded one. The leaf itself is zeroed by a separate update. */
    method BanUser(idCommitment: nat, secret: nat) returns (r: Result<nat, Error>)
      requires Valid()
      modifies this`bannedUsers
      ensures r.Err? ==> bannedUsers == old(bannedUsers)
      ensures
        match FirstLeaf(leaves, idCommitment)
        case None => r == Err(UserNotFound)
        case Some(i) =>
          var record := BannedUser(idCommitment, i, secret);
          if BanConflicts(old(bannedUsers), record) then r == Err(AlreadyBanned)
          else r == Ok(idCommitment) && bannedUsers == old(bannedUsers) + [record]
    {
      var n := GetTotalNumberOfLeaves();
      config.SlotsAreReadBack(nodes, leaves);
      var leaf := FirstLeaf(ReadSlots(nodes, n), idCommitment);
      if leaf.None? {
        return Err(UserNotFound);
      }
      var record := BannedUser(idCommitment, leaf.value, secret);
      if BanConflicts(bannedUsers, record) {
        return Err(AlreadyBanned);
      }
      bannedUsers := bannedUsers + [record];
      return Ok(idCommitment);
    }

    /** All leaves in hex, in the order of their positions. */
    method GetLeaves() returns (printed: seq<string>)
      requires Valid()
      ensures printed == PrintLeaves(Hashes(leaves))
      ensures leaves != [] && config.HashOk(nodes) ==>
                Key(config.levels, 0) in nodes
                && SlashedGroupRoot(config, printed) == Some(nodes[Key(config.levels, 0)].hash)
    {
      var n := GetTotalNumberOfLeaves();
      config.SlotsAreReadBack(nodes, leaves);
      printed := PrintLeaves(Hashes(ReadSlots(nodes, n)));
      if leaves != [] && config.HashOk(nodes) {
        ClientRebuildsStoredRoot(config, nodes, leaves);
      }
    }

    /** The root as it is stored. */
    ghost function StoredRoot(): Option<nat>
      requires Valid()
      reads this`zeros, this`nodes, this`leaves, this`history
    {
      if leaves == [] then None
      else
        config.RootIsStored(nodes, |leaves|);
        Some(nodes[Key(config.levels, 0)].hash)
    }

    /** While all hashes are right, the stored root is the from-scratch root. */
    lemma StoredRootIsRight()
      requires Valid() && config.HashOk(nodes)
      ensures StoredRoot() == config.RootOf(leaves)
    {
      if leaves != [] {
        config.RootIsStored(nodes, |leaves|);
        config.StoredHashIsSubRoot(nodes, |leaves|, config.levels, 0);
        config.LeafHashesOfSlots(nodes, leaves);
      }
    }

    /** Whatever was written before, the stored root is that of the leaves which the history shows at the top. */
    lemma StoredRootIsShown()
      requires Valid()
      ensures StoredRoot() == if leaves == [] then None else Some(config.Root(Shown(config, history, config.levels)))
    {
      hide Reached, config.Shape, config.Root, Shown;
      if leaves != [] { StoredRootShows(config, nodes, history); }
    }

    /** The hash of the record without a parent. While all hashes are right, it is the from-scratch root. */
    method GetRoot() returns (r: Result<nat, Error>)
      requires Valid()
      ensures r == match StoredRoot()
                   case None => Err(RootNotFound)
                   case Some(root) => Ok(root)
      ensures leaves == [] <==> r == Err(RootNotFound)
      ensures leaves != [] ==> Key(config.levels, 0) in nodes && r == Ok(nodes[Key(config.levels, 0)].hash)
      ensures leaves != [] && config.HashOk(nodes) ==>
                r == Ok(config.Root(Hashes(leaves)))
      ensures leaves != [] ==> r == Ok(config.Root(Shown(config, history, config.levels)))
    {
      hide Reached, Shown;
      StoredRootIsShown();
      forall k ensures k in nodes && nodes[k].parent.None? <==> leaves != [] && k == Key(config.levels, 0) {
        config.RootIsTheOnlyOrphan(nodes, |leaves|, k);
      }
      if config.HashOk(nodes) {
        config.StoredHashIsSubRoot(nodes, |leaves|, config.levels, 0);
        config.LeafHashesOfSlots(nodes, leaves);
      }
      if k :| k in nodes && nodes[k].parent.None? {
        r := Ok(nodes[k].hash);
      } else {
        r := Err(RootNotFound);
      }
    }
  }
}
