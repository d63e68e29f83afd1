/**
 The synchronisation of the tree with the groups of an outside service. `Pass` is one pass
 over all groups, with what each fetch returned; a fetch that failed returns no members.
 */
module GroupSync {
  import opened Prelude
  import opened MerkleTree
  import opened UserServices

  /** The recorded state of a group. */
  datatype Group = Group(groupId: string, name: string, size: nat, numberOfLeaves: nat)

  /**
     A group of the outside service, with what its fetches returned: the members, and the
     records of removed members, which are asked for when the size has changed. Where indexes
     are expected these are records, so looking one up throws.
   */
  datatype Fetched = Fetched(groupId: string, name: string, members: seq<GroupMember>, removed: seq<GroupMember>)

  /** The leaves, the group records, and whether the pass will publish an event. */
  datatype SyncState = SyncState(slots: seq<Slot>, groups: seq<Group>, changed: bool)

  /** The size of a tree, and whether its empty-subtree hashes were seeded. */
  datatype Tree = Tree(capacity: nat, seeded: bool)

  function FindGroup(groups: seq<Group>, groupId: string): (r: Option<Group>)
    ensures r.Some? ==> r.value in groups && r.value.groupId == groupId
    ensures r.None? ==> forall g | g in groups :: g.groupId != groupId
  {
    if groups == [] then None
    else if groups[0].groupId == groupId then Some(groups[0])
    else FindGroup(groups[1..], groupId)
  }

  function UpdateNumberOfLeaves(groups: seq<Group>, groupId: string, n: nat): seq<Group> {
    if groups == [] then []
    else if groups[0].groupId == groupId then [groups[0].(numberOfLeaves := n)] + groups[1..]
    else [groups[0]] + UpdateNumberOfLeaves(groups[1..], groupId, n)
  }

  function UpdateSize(groups: seq<Group>, groupId: string, n: nat): seq<Group> {
    if groups == [] then []
    else if groups[0].groupId == groupId then [groups[0].(size := n)] + groups[1..]
    else [groups[0]] + UpdateSize(groups[1..], groupId, n)
  }

  /** The leaves after an append, also one that was cut short by a full tree. */
  function AfterAppend(tree: Tree, slots: seq<Slot>, f: Fetched): seq<Slot> {
    if f.members == [] || !tree.seeded then slots else Appended(slots, f.members, f.groupId, tree.capacity)
  }

  predicate AppendSucceeds(tree: Tree, slots: seq<Slot>, f: Fetched) {
    || f.members == []
    || (tree.seeded && forall u | u in f.members :: IsMember(AfterAppend(tree, slots, f), f.groupId, u.index))
  }

  /** The part of a pass that is about one group; the group's record is as it was when the pass began. */
  function SyncGroup(tree: Tree, s: SyncState, inDb: Option<Group>, f: Fetched): SyncState {
    var numberOfLeaves := |f.members|;
    match inDb
    case None =>
      var appended := s.(slots := AfterAppend(tree, s.slots, f));
      if AppendSucceeds(tree, s.slots, f) && FindGroup(s.groups, f.groupId).None?
      then appended.(groups := s.groups + [Group(f.groupId, f.name, numberOfLeaves, numberOfLeaves)], changed := true)
      else appended
    case Some(group) =>
      var appended :=
        if numberOfLeaves <= group.numberOfLeaves then s
        else if AppendSucceeds(tree, s.slots, f)
        then SyncState(AfterAppend(tree, s.slots, f), UpdateNumberOfLeaves(s.groups, f.groupId, numberOfLeaves), true)
        else s.(slots := AfterAppend(tree, s.slots, f));
      if numberOfLeaves == group.size || f.removed != [] then appended
      else appended.(groups := UpdateSize(appended.groups, f.groupId, numberOfLeaves), changed := true)
  }

  function SyncGroups(tree: Tree, inDb: seq<Group>, s: SyncState, fetched: seq<Fetched>): SyncState {
    if fetched == [] then s
    else
      var last := fetched[|fetched| - 1];
      SyncGroup(tree, SyncGroups(tree, inDb, s, fetched[..|fetched| - 1]), FindGroup(inDb, last.groupId), last)
  }

  function Pass(tree: Tree, slots: seq<Slot>, groups: seq<Group>, fetched: seq<Fetched>): SyncState {
    SyncGroups(tree, groups, SyncState(slots, groups, false), fetched)
  }

  // ----- a group's leaves -----

  function GroupLeaves(slots: seq<Slot>, groupId: string): seq<Slot> {
    if slots == [] then []
    else
      var last := slots[|slots| - 1];
      GroupLeaves(slots[..|slots| - 1], groupId) + (if last.groupId == groupId then [last] else [])
  }

  /** The members as an outside service lists them: each with its position. */
  function Members(list: seq<nat>): (members: seq<GroupMember>)
    ensures |members| == |list|
  {
    seq(|list|, i requires 0 <= i < |list| => GroupMember(i, list[i]))
  }

  /** A leaf for each member of a prefix of the list, in order; a ban may have zeroed its hash. */
  ghost predicate IsPrefix(leaves: seq<Slot>, list: seq<nat>, zeroValue: nat) {
    && |leaves| <= |list|
    && forall j | 0 <= j < |leaves| ::
         leaves[j].indexInGroup == j && (leaves[j].hash == list[j] || leaves[j].hash == zeroValue)
  }

  lemma GroupLeavesOfMore(slots: seq<Slot>, slot: Slot, groupId: string)
    ensures GroupLeaves(slots + [slot], groupId)
            == GroupLeaves(slots, groupId) + (if slot.groupId == groupId then [slot] else [])
  {
    assert (slots + [slot])[..|slots|] == slots;
  }

  lemma {:induction false} MemberIsAGroupLeaf(slots: seq<Slot>, groupId: string, index: int)
    ensures IsMember(slots, groupId, index) <==>
            exists j :: 0 <= j < |GroupLeaves(slots, groupId)| && GroupLeaves(slots, groupId)[j].indexInGroup == index
    decreases |slots|
  {
    if slots != [] {
      var rest, last := slots[..|slots| - 1], slots[|slots| - 1];
      MemberIsAGroupLeaf(rest, groupId, index);
      assert slots == rest + [last];
      GroupLeavesOfMore(rest, last, groupId);
      var before, leaves := GroupLeaves(rest, groupId), GroupLeaves(slots, groupId);
      if IsMember(rest, groupId, index) {
        var j :| 0 <= j < |before| && before[j].indexInGroup == index;
        assert leaves[j].indexInGroup == index;
        MembershipIsKept(rest, slots, groupId, index);
      }
      if last.groupId == groupId && last.indexInGroup == index {
        assert leaves[|before|].indexInGroup == index;
      }
      if j :| 0 <= j < |leaves| && leaves[j].indexInGroup == index {
        if j < |before| { assert before[j].indexInGroup == index; }
      }
    }
  }

  lemma PrefixMembers(slots: seq<Slot>, groupId: string, list: seq<nat>, zeroValue: nat, index: nat)
    requires IsPrefix(GroupLeaves(slots, groupId), list, zeroValue)
    ensures IsMember(slots, groupId, index) <==> index < |GroupLeaves(slots, groupId)|
  {
    MemberIsAGroupLeaf(slots, groupId, index);
    if index < |GroupLeaves(slots, groupId)| {
      assert GroupLeaves(slots, groupId)[index].indexInGroup == index;
    }
  }

  /** Appending members from position i on extends the prefix, as far as the tree has room. */
  lemma {:induction false} AppendedExtendsPrefix(slots: seq<Slot>, users: seq<GroupMember>, groupId: string,
                                                 capacity: nat,
                                                 list: seq<nat>, zeroValue: nat, i: nat)
    requires i + |users| <= |list| && users == Members(list)[i..i + |users|]
    requires IsPrefix(GroupLeaves(slots, groupId), list, zeroValue) && i <= |GroupLeaves(slots, groupId)|
    ensures var more := Appended(slots, users, groupId, capacity);
            && IsPrefix(GroupLeaves(more, groupId), list, zeroValue)
            && |GroupLeaves(slots, groupId)| <= |GroupLeaves(more, groupId)|
    decreases |users|
  {
    hide IsMember;
    if users != [] {
      var r := Added(slots, users[0], groupId, capacity);
      PrefixMembers(slots, groupId, list, zeroValue, i);
      if r.Some? {
        GroupLeavesOfMore(slots, Slot(groupId, i, list[i]), groupId);
        AppendedExtendsPrefix(r.value, users[1..], groupId, capacity, list, zeroValue, i + 1);
      }
    }
  }

  lemma {:induction false} AppendedKeepsOtherLeaves(slots: seq<Slot>, users: seq<GroupMember>, groupId: string,
                                                    capacity: nat, other: string)
    requires other != groupId
    ensures GroupLeaves(Appended(slots, users, groupId, capacity), other) == GroupLeaves(slots, other)
    decreases |users|
  {
    hide IsMember, GroupLeaves;
    if users != [] {
      var r := Added(slots, users[0], groupId, capacity);
      if r.Some? {
        AppendedKeepsOtherLeaves(r.value, users[1..], groupId, capacity, other);
        GroupLeavesOfMore(slots, Slot(groupId, users[0].index, users[0].identityCommitment), other);
      }
    }
  }

  // ----- what every pass keeps -----

  /** The final lists of the outside service, by group: they only grow, so every fetch sees a prefix. */
  type Remote = map<string, seq<nat>>

  ghost predicate SeesPrefix(f: Fetched, remote: Remote) {
    && f.groupId in remote
    && |f.members| <= |remote[f.groupId]|
    && f.members == Members(remote[f.groupId])[..|f.members|]
  }

  /** Every group's leaves are a prefix of its list, and no record counts more leaves than there are. */
  ghost predicate InStep(slots: seq<Slot>, groups: seq<Group>, remote: Remote, zeroValue: nat) {
    && (forall id | id in remote :: IsPrefix(GroupLeaves(slots, id), remote[id], zeroValue))
    && (forall g | g in groups :: g.groupId in remote && g.numberOfLeaves <= |GroupLeaves(slots, g.groupId)|)
  }

  lemma AfterAppendExtendsPrefix(tree: Tree, slots: seq<Slot>, f: Fetched, remote: Remote, zeroValue: nat)
    requires SeesPrefix(f, remote)
    requires forall id | id in remote :: IsPrefix(GroupLeaves(slots, id), remote[id], zeroValue)
    ensures var more := AfterAppend(tree, slots, f);
            && (forall id | id in remote :: IsPrefix(GroupLeaves(more, id), remote[id], zeroValue))
            && (forall id :: |GroupLeaves(slots, id)| <= |GroupLeaves(more, id)|)
            && (AppendSucceeds(tree, slots, f) ==> |f.members| <= |GroupLeaves(more, f.groupId)|)
  {
    hide GroupLeaves, IsPrefix, Appended, IsMember;
    if f.members != [] && tree.seeded {
      var list := remote[f.groupId];
      AppendedExtendsPrefix(slots, f.members, f.groupId, tree.capacity, list, zeroValue, 0);
      forall other | other != f.groupId
        ensures GroupLeaves(AfterAppend(tree, slots, f), other) == GroupLeaves(slots, other)
      {
        AppendedKeepsOtherLeaves(slots, f.members, f.groupId, tree.capacity, other);
      }
      if AppendSucceeds(tree, slots, f) {
        var last := f.members[|f.members| - 1];
        PrefixMembers(AfterAppend(tree, slots, f), f.groupId, list, zeroValue, last.index);
      }
    }
  }

  lemma {:induction false} UpdatesKeepTheRest(groups: seq<Group>, groupId: string, n: nat)
    ensures forall g | g in UpdateNumberOfLeaves(groups, groupId, n) ::
              g in groups || (g.groupId == groupId && g.numberOfLeaves == n)
    ensures forall g | g in UpdateSize(groups, groupId, n) ::
              exists h :: h in groups && h.groupId == g.groupId && h.numberOfLeaves == g.numberOfLeaves
    decreases |groups|
  {
    if groups != [] {
      UpdatesKeepTheRest(groups[1..], groupId, n);
      forall g | g in UpdateSize(groups, groupId, n)
        ensures exists h :: h in groups && h.groupId == g.groupId && h.numberOfLeaves == g.numberOfLeaves
      {
        if g == groups[0] || g == groups[0].(size := n) {
          assert groups[0] in groups;
        } else if groups[0].groupId == groupId {
          assert g in groups;
        } else {
          assert g in UpdateSize(groups[1..], groupId, n);
        }
      }
    }
  }

  lemma SyncGroupKeepsInStep(tree: Tree, s: SyncState, inDb: Option<Group>, f: Fetched, remote: Remote, zeroValue: nat)
    requires InStep(s.slots, s.groups, remote, zeroValue) && SeesPrefix(f, remote)
    ensures var t := SyncGroup(tree, s, inDb, f);
            InStep(t.slots, t.groups, remote, zeroValue)
  {
    hide IsPrefix, AfterAppend, AppendSucceeds, GroupLeaves, UpdateNumberOfLeaves, UpdateSize;
    AfterAppendExtendsPrefix(tree, s.slots, f, remote, zeroValue);
    UpdatesKeepTheRest(s.groups, f.groupId, |f.members|);
    UpdatesKeepTheRest(UpdateNumberOfLeaves(s.groups, f.groupId, |f.members|), f.groupId, |f.members|);
  }

  /**
     Whatever fetches fail, see an older list, or hit a full tree: the leaves of every group
     stay a prefix of its list, and no record counts more leaves than are stored.
   */
  lemma {:induction false} PassKeepsInStep(tree: Tree, inDb: seq<Group>, s: SyncState, fetched: seq<Fetched>,
                                           remote: Remote, zeroValue: nat)
    requires InStep(s.slots, s.groups, remote, zeroValue) && forall f | f in fetched :: SeesPrefix(f, remote)
    ensures var t := SyncGroups(tree, inDb, s, fetched);
            InStep(t.slots, t.groups, remote, zeroValue)
    decreases |fetched|
  {
    hide InStep, SeesPrefix, SyncGroup;
    if fetched != [] {
      var rest, last := fetched[..|fetched| - 1], fetched[|fetched| - 1];
      PassKeepsInStep(tree, inDb, s, rest, remote, zeroValue);
      SyncGroupKeepsInStep(tree, SyncGroups(tree, inDb, s, rest), FindGroup(inDb, last.groupId), last, remote,
                           zeroValue);
    }
  }

  /** A ban that zeroes a leaf keeps everything in step, so a banned member is not appended again. */
  lemma ZeroingKeepsInStep(slots: seq<Slot>, groups: seq<Group>, remote: Remote, zeroValue: nat, i: nat)
    requires InStep(slots, groups, remote, zeroValue) && i < |slots|
    ensures InStep(slots[i := slots[i].(hash := zeroValue)], groups, remote, zeroValue)
  {
    forall id
      ensures var leaves, zeroed := GroupLeaves(slots, id), GroupLeaves(slots[i := slots[i].(hash := zeroValue)], id);
              && |zeroed| == |leaves|
              && forall j | 0 <= j < |leaves| :: zeroed[j] == leaves[j] || zeroed[j] == leaves[j].(hash := zeroValue)
    {
      ZeroedGroupLeaves(slots, id, i, zeroValue);
    }
  }

  lemma {:induction false} ZeroedGroupLeaves(slots: seq<Slot>, groupId: string, i: nat, zeroValue: nat)
    requires i < |slots|
    ensures var leaves := GroupLeaves(slots, groupId);
            var zeroed := GroupLeaves(slots[i := slots[i].(hash := zeroValue)], groupId);
            && |zeroed| == |leaves|
            && forall j | 0 <= j < |leaves| :: zeroed[j] == leaves[j] || zeroed[j] == leaves[j].(hash := zeroValue)
    decreases |slots|
  {
    var n := |slots| - 1;
    var zeroed := slots[i := slots[i].(hash := zeroValue)];
    if i < n {
      ZeroedGroupLeaves(slots[..n], groupId, i, zeroValue);
      assert zeroed[..n] == slots[..n][i := slots[i].(hash := zeroValue)];
    } else {
      assert zeroed[..n] == slots[..n];
    }
  }

  lemma PassOverOne(tree: Tree, slots: seq<Slot>, groups: seq<Group>, f: Fetched)
    ensures Pass(tree, slots, groups, [f])
            == SyncGroup(tree, SyncState(slots, groups, false), FindGroup(groups, f.groupId), f)
  {
    hide SyncGroup;
    var s := SyncState(slots, groups, false);
    assert [f][..|[f]| - 1] == [];
    assert SyncGroups(tree, groups, s, []) == s;
  }

  /** The flag only accumulates. */
  lemma FlagAccumulates(tree: Tree, s: SyncState, inDb: Option<Group>, f: Fetched)
    ensures var t := SyncGroup(tree, s.(changed := false), inDb, f);
            SyncGroup(tree, s, inDb, f) == t.(changed := s.changed || t.changed)
  {
  }

  /** A pass begins before the first group and ends after the last. */
  lemma WholePass(tree: Tree, slots: seq<Slot>, groups: seq<Group>, fetched: seq<Fetched>)
    ensures SyncGroups(tree, groups, SyncState(slots, groups, false), fetched[..0]) == SyncState(slots, groups, false)
    ensures SyncGroups(tree, groups, SyncState(slots, groups, false), fetched[..|fetched|])
            == Pass(tree, slots, groups, fetched)
  {
    assert fetched[..|fetched|] == fetched;
  }

  lemma SyncGroupsOneMore(tree: Tree, inDb: seq<Group>, s: SyncState, fetched: seq<Fetched>, i: nat)
    requires i < |fetched|
    ensures SyncGroups(tree, inDb, s, fetched[..i + 1])
            == SyncGroup(tree, SyncGroups(tree, inDb, s, fetched[..i]), FindGroup(inDb, fetched[i].groupId), fetched[i])
  {
    assert fetched[..i + 1][..i] == fetched[..i];
  }

  // ----- a second pass -----

  /** Nothing is left to do for a group: its record is up to date, or its append cannot get any further. */
  ghost predicate Settled(tree: Tree, slots: seq<Slot>, groups: seq<Group>, f: Fetched) {
    var stuck := !AppendSucceeds(tree, slots, f) && AfterAppend(tree, slots, f) == slots;
    match FindGroup(groups, f.groupId)
    case None => stuck
    case Some(group) =>
      (group.size == |f.members| || f.removed != []) && (|f.members| <= group.numberOfLeaves || stuck)
  }

  lemma {:induction false} FindAfterUpdates(groups: seq<Group>, groupId: string, n: nat, id: string)
    ensures FindGroup(UpdateNumberOfLeaves(groups, groupId, n), id)
            == (match FindGroup(groups, id)
                case None => None
                case Some(g) => Some(if id == groupId then g.(numberOfLeaves := n) else g))
    ensures FindGroup(UpdateSize(groups, groupId, n), id)
            == (match FindGroup(groups, id)
                case None => None
                case Some(g) => Some(if id == groupId then g.(size := n) else g))
    decreases |groups|
  {
    if groups != [] {
      FindAfterUpdates(groups[1..], groupId, n, id);
    }
  }

  lemma {:induction false} FindAfterSave(groups: seq<Group>, g: Group, id: string)
    ensures FindGroup(groups + [g], id)
            == if FindGroup(groups, id).Some? then FindGroup(groups, id) else if g.groupId == id then Some(g) else None
    decreases |groups|
  {
    if groups == [] {
      assert groups + [g] == [g];
    } else {
      FindAfterSave(groups[1..], g, id);
      assert (groups + [g])[1..] == groups[1..] + [g];
    }
  }

  /** An append that fails in a seeded tree has filled it. */
  lemma {:induction false} FailedAppendFillsTree(slots: seq<Slot>, users: seq<GroupMember>, groupId: string,
                                                 capacity: nat)
    requires exists u :: u in users && !IsMember(Appended(slots, users, groupId, capacity), groupId, u.index)
    ensures |Appended(slots, users, groupId, capacity)| >= capacity
    decreases |users|
  {
    var r := Added(slots, users[0], groupId, capacity);
    if r.Some? {
      AddedBecomesMember(slots, users[0], groupId, capacity);
      AppendedOnlyExtends(r.value, users[1..], groupId, capacity);
      MembershipIsKept(r.value, Appended(slots, users, groupId, capacity), groupId, users[0].index);
      FailedAppendFillsTree(r.value, users[1..], groupId, capacity);
    }
  }

  lemma {:induction false} FullTreeTakesNothing(slots: seq<Slot>, users: seq<GroupMember>, groupId: string,
                                                capacity: nat)
    requires |slots| >= capacity
    ensures Appended(slots, users, groupId, capacity) == slots
    decreases |users|
  {
    if users != [] && IsMember(slots, groupId, users[0].index) {
      FullTreeTakesNothing(slots, users[1..], groupId, capacity);
    }
  }

  /** What one group's append leaves undone stays undone after any append. */
  lemma StuckStaysStuck(tree: Tree, slots: seq<Slot>, f: Fetched, other: Fetched)
    requires !AppendSucceeds(tree, slots, f) && AfterAppend(tree, slots, f) == slots
    ensures AfterAppend(tree, slots, other) == slots
  {
    if tree.seeded {
      FailedAppendFillsTree(slots, f.members, f.groupId, tree.capacity);
      FullTreeTakesNothing(slots, other.members, other.groupId, tree.capacity);
    }
  }

  /** Appending again gets no further, and ends as before. */
  lemma AppendingAgain(tree: Tree, slots: seq<Slot>, f: Fetched)
    ensures AfterAppend(tree, AfterAppend(tree, slots, f), f) == AfterAppend(tree, slots, f)
    ensures AppendSucceeds(tree, AfterAppend(tree, slots, f), f) == AppendSucceeds(tree, slots, f)
  {
    hide IsMember;
    if f.members != [] && tree.seeded {
      AppendedIsIdempotent(slots, f.members, f.groupId, tree.capacity);
    }
  }

  lemma SyncedGroupIsSettled(tree: Tree, s: SyncState, f: Fetched)
    ensures var t := SyncGroup(tree, s, FindGroup(s.groups, f.groupId), f);
            Settled(tree, t.slots, t.groups, f)
  {
    hide AfterAppend, AppendSucceeds, FindGroup, UpdateNumberOfLeaves, UpdateSize;
    var n := |f.members|;
    AppendingAgain(tree, s.slots, f);
    FindAfterUpdates(s.groups, f.groupId, n, f.groupId);
    FindAfterUpdates(UpdateNumberOfLeaves(s.groups, f.groupId, n), f.groupId, n, f.groupId);
    FindAfterSave(s.groups, Group(f.groupId, f.name, n, n), f.groupId);
  }

  lemma SettledStays(tree: Tree, s: SyncState, inDb: Option<Group>, f: Fetched, other: Fetched)
    requires Settled(tree, s.slots, s.groups, f) && other.groupId != f.groupId
    ensures var t := SyncGroup(tree, s, inDb, other);
            Settled(tree, t.slots, t.groups, f) && FindGroup(t.groups, f.groupId) == FindGroup(s.groups, f.groupId)
  {
    hide AfterAppend, AppendSucceeds;
    OtherGroupIsUntouched(tree, s, inDb, f.groupId, other);
    if !AppendSucceeds(tree, s.slots, f) && AfterAppend(tree, s.slots, f) == s.slots {
      StuckStaysStuck(tree, s.slots, f, other);
    }
  }

  lemma OtherGroupIsUntouched(tree: Tree, s: SyncState, inDb: Option<Group>, id: string, other: Fetched)
    requires other.groupId != id
    ensures FindGroup(SyncGroup(tree, s, inDb, other).groups, id) == FindGroup(s.groups, id)
  {
    hide AfterAppend, AppendSucceeds, FindGroup, UpdateNumberOfLeaves, UpdateSize;
    var n := |other.members|;
    FindAfterUpdates(s.groups, other.groupId, n, id);
    FindAfterUpdates(UpdateNumberOfLeaves(s.groups, other.groupId, n), other.groupId, n, id);
    FindAfterSave(s.groups, Group(other.groupId, other.name, n, n), id);
  }

  ghost predicate DistinctGroups(fetched: seq<Fetched>) {
    forall i, j | 0 <= i < j < |fetched| :: fetched[i].groupId != fetched[j].groupId
  }

  lemma {:induction false} PassSettlesEveryGroup(tree: Tree, s: SyncState, fetched: seq<Fetched>)
    requires DistinctGroups(fetched)
    ensures var t := SyncGroups(tree, s.groups, s, fetched);
            && (forall f | f in fetched :: Settled(tree, t.slots, t.groups, f))
            && (forall id | (forall f | f in fetched :: f.groupId != id) ::
                  FindGroup(t.groups, id) == FindGroup(s.groups, id))
    decreases |fetched|
  {
    hide Settled, SyncGroup;
    if fetched != [] {
      var rest, last := fetched[..|fetched| - 1], fetched[|fetched| - 1];
      PassSettlesEveryGroup(tree, s, rest);
      var before := SyncGroups(tree, s.groups, s, rest);
      var t := SyncGroups(tree, s.groups, s, fetched);
      assert FindGroup(before.groups, last.groupId) == FindGroup(s.groups, last.groupId);
      SyncedGroupIsSettled(tree, before, last);
      forall f | f in rest ensures Settled(tree, t.slots, t.groups, f) {
        SettledStays(tree, before, FindGroup(s.groups, last.groupId), f, last);
      }
      forall id | forall f | f in fetched :: f.groupId != id
        ensures FindGroup(t.groups, id) == FindGroup(s.groups, id)
      {
        assert last in fetched;
        OtherGroupIsUntouched(tree, before, FindGroup(s.groups, last.groupId), id, last);
      }
    }
  }

  lemma {:induction false} SettledPassIsQuiet(tree: Tree, slots: seq<Slot>, groups: seq<Group>, fetched: seq<Fetched>)
    requires forall f | f in fetched :: Settled(tree, slots, groups, f)
    ensures Pass(tree, slots, groups, fetched) == SyncState(slots, groups, false)
    decreases |fetched|
  {
    hide AfterAppend, AppendSucceeds;
    if fetched != [] {
      assert fetched[|fetched| - 1] in fetched;
      SettledPassIsQuiet(tree, slots, groups, fetched[..|fetched| - 1]);
    }
  }

  /**
     A further pass that sees the same lists changes no leaf and no record and publishes
     nothing, also when the tree was full or not seeded yet.
   */
  lemma SecondPassIsQuiet(tree: Tree, slots: seq<Slot>, groups: seq<Group>, fetched: seq<Fetched>)
    requires DistinctGroups(fetched)
    ensures var t := Pass(tree, slots, groups, fetched);
            Pass(tree, t.slots, t.groups, fetched) == t.(changed := false)
  {
    hide Settled, SyncGroups;
    PassSettlesEveryGroup(tree, SyncState(slots, groups, false), fetched);
    var t := Pass(tree, slots, groups, fetched);
    SettledPassIsQuiet(tree, t.slots, t.groups, fetched);
  }

  /**
     The event does not follow the tree: when a fetch fails for a group in step, a pass
     announces a change although no leaf changed, and so does the pass after it that works.
   */
  lemma FailedFetchIsAnnouncedTwice(tree: Tree, slots: seq<Slot>, group: Group, f: Fetched)
    requires f.groupId == group.groupId && |f.members| == group.size == group.numberOfLeaves > 0 && f.removed == []
    ensures var t := Pass(tree, slots, [group], [f.(members := [])]);
            && t == SyncState(slots, [group.(size := 0)], true)
            && Pass(tree, t.slots, t.groups, [f]) == SyncState(slots, [group], true)
  {
    PassOverOne(tree, slots, [group], f.(members := []));
    PassOverOne(tree, slots, [group.(size := 0)], f);
  }
}
