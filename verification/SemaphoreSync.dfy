/** The group synchronisation as the server runs it, over the real tree and the group records. */
module SemaphoreSync {
  import opened Prelude
  import opened MerkleTree
  import opened UserServices
  import opened GroupSync
  import opened GroupEvents

  class SemaphoreSynchronizer {
    const userService: UserService
    var groups: seq<Group>
    var events: nat

    constructor (userService: UserService)
      ensures this.userService == userService && groups == [] && events == 0
    {
      this.userService := userService;
      groups, events := [], 0;
    }

    ghost function TreeOf(): Tree
      reads userService`zeros
    {
      Tree(Pow2(userService.config.levels), userService.zeros != [])
    }

    lemma RoomInTree()
      requires userService.Valid()
      ensures TreeOf().capacity == Pow2(userService.config.levels) && |userService.leaves| <= TreeOf().capacity
    {
    }

    /** Saves a record, unless the group has one. */
    method SaveGroup(groupId: string, name: string, size: nat, numberOfLeaves: nat) returns (ok: bool)
      modifies this`groups
      ensures ok <==> FindGroup(old(groups), groupId).None?
      ensures groups == if ok then old(groups) + [Group(groupId, name, size, numberOfLeaves)] else old(groups)
    {
      if FindGroup(groups, groupId).Some? { return false; }
      groups := groups + [Group(groupId, name, size, numberOfLeaves)];
      return true;
    }

    /** One group of a pass. */
    method SyncOneGroup(inDb: Option<Group>, f: Fetched) returns (changed: bool)
      requires userService.Valid()
      modifies this`groups, userService`nodes, userService`leaves, userService`history
      ensures userService.Valid()
      ensures SyncGroup(TreeOf(), SyncState(old(userService.leaves), old(groups), false), inDb, f)
              == SyncState(userService.leaves, groups, changed)
      ensures old(userService.leaves) <= userService.leaves
      ensures userService.leaves == old(userService.leaves) ==> userService.nodes == old(userService.nodes)
      ensures old(userService.config.HashOk(userService.nodes)) ==> userService.config.HashOk(userService.nodes)
      ensures old(userService.config.Fresh(userService.nodes)) ==> userService.config.Fresh(userService.nodes)
    {
      hide TreeConfig.HashOk, TreeConfig.Fresh, UserService.Valid, Appended, IsMember, FindGroup, UpdateNumberOfLeaves,
           UpdateSize;
      AppendedOnlyExtends(userService.leaves, f.members, f.groupId, Pow2(userService.config.levels));
      changed := false;
      var numberOfLeaves := |f.members|;
      if inDb.None? {
        var r := userService.AppendUsers(f.members, f.groupId);
        if r.Ok? {
          changed := SaveGroup(f.groupId, f.name, numberOfLeaves, numberOfLeaves);
        }
      } else {
        if numberOfLeaves > inDb.value.numberOfLeaves {
          var r := userService.AppendUsers(f.members, f.groupId);
          if r.Ok? {
            groups := UpdateNumberOfLeaves(groups, f.groupId, numberOfLeaves);
            changed := true;
          }
        }
        if numberOfLeaves != inDb.value.size && f.removed == [] {
          var r := userService.RemoveUsersByIndexes([], f.groupId);
          groups := UpdateSize(groups, f.groupId, numberOfLeaves);
          changed := true;
        }
      }
    }

    /**
     One pass over all groups, with the members their fetches returned; it publishes at most
     one event. From right hashes, the root the server answers with changes exactly when a
     first leaf or a leaf that is not empty is admitted.
     */
    method SyncCommitmentsFromSemaphore(fetched: seq<Fetched>)
      requires userService.Valid()
      modifies this`groups, this`events, userService`nodes, userService`leaves, userService`history
      ensures userService.Valid()
      ensures var t := Pass(TreeOf(), old(userService.leaves), old(groups), fetched);
              && userService.leaves == t.slots && groups == t.groups
              && events == old(events) + if t.changed then 1 else 0
      ensures userService.leaves == old(userService.leaves) ==> userService.nodes == old(userService.nodes)
      ensures old(userService.config.HashOk(userService.nodes)) ==> userService.config.HashOk(userService.nodes)
      ensures old(userService.config.Fresh(userService.nodes)) ==> userService.config.Fresh(userService.nodes)
      ensures old(userService.config.HashOk(userService.nodes)) && userService.config.Injective()
              && DistinctGroups(fetched) ==>
                var moves := MovesRoot(userService.config.zeroValue, old(userService.leaves),
                                       Admitted(TreeOf(), old(userService.leaves), old(groups), fetched));
                var announces := SomeAnnounces(TreeOf(), old(userService.leaves), old(groups), fetched);
                && (userService.StoredRoot() != old(userService.StoredRoot()) <==> moves)
                && (events != old(events) <==> announces)
    {
      hide *;
      var groupsInDb := groups;
      ghost var start := SyncState(userService.leaves, groups, false);
      ghost var tree, wasRight := TreeOf(), userService.config.HashOk(userService.nodes);
      if wasRight { userService.StoredRootIsRight(); }
      RoomInTree();
      WholePass(tree, userService.leaves, groups, fetched);
      var treeRootChanged := false;
      for i := 0 to |fetched|
        invariant userService.Valid() && tree == TreeOf() && events == old(events)
        invariant SyncGroups(tree, groupsInDb, start, fetched[..i])
                  == SyncState(userService.leaves, groups, treeRootChanged)
        invariant old(userService.leaves) <= userService.leaves
        invariant userService.leaves == old(userService.leaves) ==> userService.nodes == old(userService.nodes)
        invariant old(userService.config.HashOk(userService.nodes)) ==> userService.config.HashOk(userService.nodes)
        invariant old(userService.config.Fresh(userService.nodes)) ==> userService.config.Fresh(userService.nodes)
      {
        SyncGroupsOneMore(tree, groupsInDb, start, fetched, i);
        FlagAccumulates(tree, SyncState(userService.leaves, groups, treeRootChanged), FindGroup(groupsInDb,
                        fetched[i].groupId), fetched[i]);
        var changed := SyncOneGroup(FindGroup(groupsInDb, fetched[i].groupId), fetched[i]);
        treeRootChanged := treeRootChanged || changed;
      }
      if wasRight && userService.config.Injective() && DistinctGroups(fetched) {
        userService.StoredRootIsRight();
        EventsAndRootsExactly(userService.config, tree.seeded, start.slots, start.groups, fetched);
        PassAddsAndPublishes(tree, start.slots, start.groups, fetched);
      }
      if treeRootChanged {
        events := events + 1;
      }
    }
  }
}
