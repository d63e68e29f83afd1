/**
 When a pass of the group synchronisation changes the leaves, when it changes the root, and
 when it publishes an event, in terms of what is there before the pass.
 */
module GroupEvents {
  import opened Prelude
  import opened MerkleTree
  import opened UserServices
  import opened GroupSync

  // ----- what an append adds -----

  predicate Occurs(users: seq<GroupMember>, index: int) {
    exists i | 0 <= i < |users| :: users[i].index == index
  }

  function SlotFor(groupId: string, user: GroupMember): Slot {
    Slot(groupId, user.index, user.identityCommitment)
  }

  /** The leaves that are still to be added for some users: each index that has none, once, in order. */
  function Newcomers(slots: seq<Slot>, users: seq<GroupMember>, groupId: string): seq<Slot> {
    if users == [] then []
    else
      var rest, last := users[..|users| - 1], users[|users| - 1];
      Newcomers(slots, rest, groupId)
      + (if IsMember(slots, groupId, last.index) || Occurs(rest, last.index) then [] else [SlotFor(groupId, last)])
  }

  function UpTo<T>(s: seq<T>, n: nat): seq<T> {
    if |s| <= n then s else s[..n]
  }

  function Room(slots: seq<Slot>, capacity: nat): nat {
    if |slots| >= capacity then 0 else capacity - |slots|
  }

  lemma MemberAfterOne(slots: seq<Slot>, slot: Slot, index: int)
    ensures IsMember(slots + [slot], slot.groupId, index) <==>
              IsMember(slots, slot.groupId, index) || index == slot.indexInGroup
  {
    var more := slots + [slot];
    if IsMember(slots, slot.groupId, index) { MembershipIsKept(slots, more, slot.groupId, index); }
    assert more[|slots|] == slot;
  }

  lemma OccursFromFront(users: seq<GroupMember>, index: int)
    requires users != []
    ensures Occurs(users, index) <==> users[0].index == index || Occurs(users[1..], index)
  {
    if Occurs(users[1..], index) {
      var i :| 0 <= i < |users| - 1 && users[1..][i].index == index;
      assert users[i + 1].index == index;
    }
    if Occurs(users, index) {
      var i :| 0 <= i < |users| && users[i].index == index;
      if i > 0 { assert users[1..][i - 1].index == index; }
    }
  }

  /** Offering the first user: a known one adds nothing, another one comes first and is known from then on. */
  lemma {:induction false} NewcomersFromFront(slots: seq<Slot>, users: seq<GroupMember>, groupId: string)
    requires users != []
    ensures
      var slot := SlotFor(groupId, users[0]);
      Newcomers(slots, users, groupId)
      == if IsMember(slots, groupId, users[0].index) then Newcomers(slots, users[1..], groupId)
         else [slot] + Newcomers(slots + [slot], users[1..], groupId)
    decreases |users|
  {
    hide IsMember, Occurs;
    var n := |users| - 1;
    var slot, rest, last := SlotFor(groupId, users[0]), users[..n], users[n];
    if n == 0 {
      NobodyOccurs(last.index);
      assert rest == [] && users[1..] == [];
    } else {
      NewcomersFromFront(slots, rest, groupId);
      assert users[1..][..n - 1] == rest[1..] && users[1..][n - 1] == last;
      OccursFromFront(rest, last.index);
      MemberAfterOne(slots, slot, last.index);
    }
  }

  lemma NobodyOccurs(index: int)
    ensures !Occurs([], index)
  {
  }

  lemma UpToFromFront(slots: seq<Slot>, slot: Slot, more: seq<Slot>, capacity: nat)
    requires |slots| < capacity
    ensures slots + [slot] + UpTo(more, Room(slots + [slot], capacity))
            == slots + UpTo([slot] + more, Room(slots, capacity))
  {
  }

  /** An append adds the newcomers as far as there is room, and succeeds exactly when there is room for all. */
  lemma {:induction false} AppendedAdds(slots: seq<Slot>, users: seq<GroupMember>, groupId: string, capacity: nat)
    ensures
      var newcomers, more := Newcomers(slots, users, groupId), Appended(slots, users, groupId, capacity);
      && more == slots + UpTo(newcomers, Room(slots, capacity))
      && ((forall u | u in users :: IsMember(more, groupId, u.index)) <==> |newcomers| <= Room(slots, capacity))
    decreases |users|
  {
    hide IsMember, Newcomers;
    if users == [] {
      NobodyIsNew(slots, groupId);
    } else {
      var r := Added(slots, users[0], groupId, capacity);
      var more := Appended(slots, users, groupId, capacity);
      assert users == [users[0]] + users[1..];
      NewcomersFromFront(slots, users, groupId);
      AddedBecomesMember(slots, users[0], groupId, capacity);
      if r.Some? {
        AppendedAdds(r.value, users[1..], groupId, capacity);
        AppendedOnlyExtends(r.value, users[1..], groupId, capacity);
        MembershipIsKept(r.value, more, groupId, users[0].index);
        if r.value != slots {
          UpToFromFront(slots, SlotFor(groupId, users[0]), Newcomers(r.value, users[1..], groupId), capacity);
        }
      } else {
        assert users[0] in users;
      }
    }
  }

  lemma NobodyIsNew(slots: seq<Slot>, groupId: string)
    ensures Newcomers(slots, [], groupId) == []
  {
  }

  /** Appending to one group gives no member of another a leaf. */
  lemma {:induction false} AppendedKeepsOtherMembers(slots: seq<Slot>, users: seq<GroupMember>, groupId: string,
                                                     capacity: nat, other: string, index: int)
    requires other != groupId
    ensures IsMember(Appended(slots, users, groupId, capacity), other, index) <==> IsMember(slots, other, index)
    decreases |users|
  {
    if users != [] {
      var r := Added(slots, users[0], groupId, capacity);
      if r.Some? {
        AppendedKeepsOtherMembers(r.value, users[1..], groupId, capacity, other, index);
        if IsMember(slots, other, index) { MembershipIsKept(slots, r.value, other, index); }
      }
    }
  }

  lemma {:induction false} SameMembersSameNewcomers(slots: seq<Slot>, now: seq<Slot>, users: seq<GroupMember>,
                                                    groupId: string)
    requires forall index :: IsMember(now, groupId, index) <==> IsMember(slots, groupId, index)
    ensures Newcomers(now, users, groupId) == Newcomers(slots, users, groupId)
    decreases |users|
  {
    hide IsMember, Occurs;
    if users != [] {
      SameMembersSameNewcomers(slots, now, users[..|users| - 1], groupId);
    }
  }

  // ----- what a pass adds, and when it publishes -----

  /** The records make the pass append: the group has none, or it counts fewer leaves than were fetched. */
  predicate Tries(groups: seq<Group>, f: Fetched) {
    match FindGroup(groups, f.groupId)
    case None => true
    case Some(group) => group.numberOfLeaves < |f.members|
  }

  /** The leaves a group asks for. */
  function Asked(slots: seq<Slot>, groups: seq<Group>, f: Fetched): seq<Slot> {
    if Tries(groups, f) then Newcomers(slots, f.members, f.groupId) else []
  }

  /** The leaves all groups ask for, in order. */
  function Wanted(slots: seq<Slot>, groups: seq<Group>, fetched: seq<Fetched>): seq<Slot> {
    if fetched == [] then []
    else Wanted(slots, groups, fetched[..|fetched| - 1]) + Asked(slots, groups, fetched[|fetched| - 1])
  }

  /** The first of them that there is room for; none while the table of empty hashes is missing. */
  function Admitted(tree: Tree, slots: seq<Slot>, groups: seq<Group>, fetched: seq<Fetched>): seq<Slot> {
    if tree.seeded then UpTo(Wanted(slots, groups, fetched), Room(slots, tree.capacity)) else []
  }

  /** A group's append finds room behind so many leaves that other groups asked for before. */
  predicate Fits(tree: Tree, slots: seq<Slot>, f: Fetched, before: nat) {
    var newcomers := Newcomers(slots, f.members, f.groupId);
    || f.members == []
    || (tree.seeded && (newcomers == [] || before + |newcomers| <= Room(slots, tree.capacity)))
  }

  /** The recorded size is replaced: it is not the fetched one, and no removed member is listed. */
  predicate Resizes(groups: seq<Group>, f: Fetched) {
    match FindGroup(groups, f.groupId)
    case None => false
    case Some(group) => group.size != |f.members| && f.removed == []
  }

  /** The group makes the pass publish: its append is tried and fits, or its recorded size is replaced. */
  predicate Announces(tree: Tree, slots: seq<Slot>, groups: seq<Group>, f: Fetched, before: nat) {
    (Tries(groups, f) && Fits(tree, slots, f, before)) || Resizes(groups, f)
  }

  predicate SomeAnnounces(tree: Tree, slots: seq<Slot>, groups: seq<Group>, fetched: seq<Fetched>) {
    exists i | 0 <= i < |fetched| :: Announces(tree, slots, groups, fetched[i], |Wanted(slots, groups, fetched[..i])|)
  }

  /** What one group adds, and whether it sets the flag. */
  lemma SyncGroupAdds(tree: Tree, s: SyncState, inDb: seq<Group>, f: Fetched)
    requires FindGroup(s.groups, f.groupId) == FindGroup(inDb, f.groupId)
    ensures
      var t := SyncGroup(tree, s, FindGroup(inDb, f.groupId), f);
      && t.slots == s.slots + (if tree.seeded then UpTo(Asked(s.slots, inDb, f), Room(s.slots, tree.capacity)) else [])
      && (t.changed <==> s.changed || Announces(tree, s.slots, inDb, f, 0))
  {
    hide IsMember, Appended, FindGroup, UpdateNumberOfLeaves, UpdateSize, Newcomers;
    AppendedAdds(s.slots, f.members, f.groupId, tree.capacity);
    if f.members == [] { NobodyIsNew(s.slots, f.groupId); }
  }

  lemma SyncGroupKeepsOtherNewcomers(tree: Tree, s: SyncState, inDb: Option<Group>, f: Fetched, other: Fetched)
    requires other.groupId != f.groupId
    ensures Newcomers(SyncGroup(tree, s, inDb, f).slots, other.members, other.groupId)
            == Newcomers(s.slots, other.members, other.groupId)
  {
    hide IsMember, Appended, Newcomers;
    var now := SyncGroup(tree, s, inDb, f).slots;
    forall index ensures IsMember(now, other.groupId, index) <==> IsMember(s.slots, other.groupId, index) {
      AppendedKeepsOtherMembers(s.slots, f.members, f.groupId, tree.capacity, other.groupId, index);
    }
    SameMembersSameNewcomers(s.slots, now, other.members, other.groupId);
  }

  lemma UpToConcat(slots: seq<Slot>, wanted: seq<Slot>, asked: seq<Slot>, capacity: nat)
    ensures
      var now := slots + UpTo(wanted, Room(slots, capacity));
      now + UpTo(asked, Room(now, capacity)) == slots + UpTo(wanted + asked, Room(slots, capacity))
  {
  }

  /** What a group asks for, and whether it publishes, is the same later in the pass. */
  lemma SameLater(tree: Tree, slots: seq<Slot>, now: seq<Slot>, groups: seq<Group>, f: Fetched, wanted: seq<Slot>)
    requires Newcomers(now, f.members, f.groupId) == Newcomers(slots, f.members, f.groupId)
    requires now == slots + if tree.seeded then UpTo(wanted, Room(slots, tree.capacity)) else []
    ensures Asked(now, groups, f) == Asked(slots, groups, f)
    ensures Announces(tree, now, groups, f, 0) <==> Announces(tree, slots, groups, f, |wanted|)
  {
    hide Newcomers, FindGroup;
  }

  lemma SomeAnnouncesOneMore(tree: Tree, slots: seq<Slot>, groups: seq<Group>, fetched: seq<Fetched>)
    requires fetched != []
    ensures var n := |fetched| - 1;
            SomeAnnounces(tree, slots, groups, fetched) <==>
              SomeAnnounces(tree, slots, groups, fetched[..n])
              || Announces(tree, slots, groups, fetched[n], |Wanted(slots, groups, fetched[..n])|)
  {
    hide Announces, Wanted;
    var n := |fetched| - 1;
    forall i | 0 <= i < n ensures fetched[..n][..i] == fetched[..i] { }
    if SomeAnnounces(tree, slots, groups, fetched[..n]) {
      var i :| 0 <= i < n
               && Announces(tree, slots, groups, fetched[..n][i], |Wanted(slots, groups, fetched[..n][..i])|);
      assert Announces(tree, slots, groups, fetched[i], |Wanted(slots, groups, fetched[..i])|);
    }
    if SomeAnnounces(tree, slots, groups, fetched) {
      var i :| 0 <= i < |fetched| && Announces(tree, slots, groups, fetched[i], |Wanted(slots, groups, fetched[..i])|);
      if i < n {
        assert Announces(tree, slots, groups, fetched[..n][i], |Wanted(slots, groups, fetched[..n][..i])|);
      }
    }
  }

  /** The groups so far, in terms of what was there before the pass. */
  lemma {:induction false} SyncGroupsAdd(tree: Tree, s: SyncState, fetched: seq<Fetched>, other: Fetched)
    requires DistinctGroups(fetched) && !s.changed
    ensures
      var t := SyncGroups(tree, s.groups, s, fetched);
      && t.slots == s.slots + Admitted(tree, s.slots, s.groups, fetched)
      && (t.changed <==> SomeAnnounces(tree, s.slots, s.groups, fetched))
      && ((forall f | f in fetched :: f.groupId != other.groupId) ==>
            Newcomers(t.slots, other.members, other.groupId) == Newcomers(s.slots, other.members, other.groupId))
    decreases |fetched|
  {
    hide Newcomers, SyncGroup, Announces, FindGroup, Asked;
    if fetched != [] {
      var rest, last := fetched[..|fetched| - 1], fetched[|fetched| - 1];
      var before := SyncGroups(tree, s.groups, s, rest);
      var wanted := Wanted(s.slots, s.groups, rest);
      SyncGroupsAdd(tree, s, rest, last);
      SyncGroupsAdd(tree, s, rest, other);
      PassSettlesEveryGroup(tree, s, rest);
      SyncGroupAdds(tree, before, s.groups, last);
      SameLater(tree, s.slots, before.slots, s.groups, last, wanted);
      UpToConcat(s.slots, wanted, Asked(s.slots, s.groups, last), tree.capacity);
      SomeAnnouncesOneMore(tree, s.slots, s.groups, fetched);
      if last.groupId != other.groupId {
        SyncGroupKeepsOtherNewcomers(tree, before, FindGroup(s.groups, last.groupId), last, other);
      }
      assert last in fetched;
    }
  }

  /** A pass adds exactly the admitted leaves, and publishes exactly when some group announces. */
  lemma PassAddsAndPublishes(tree: Tree, slots: seq<Slot>, groups: seq<Group>, fetched: seq<Fetched>)
    requires DistinctGroups(fetched)
    ensures var t := Pass(tree, slots, groups, fetched);
            && t.slots == slots + Admitted(tree, slots, groups, fetched)
            && (t.changed <==> SomeAnnounces(tree, slots, groups, fetched))
  {
    hide SyncGroups, SomeAnnounces, Admitted;
    SyncGroupsAdd(tree, SyncState(slots, groups, false), fetched, Fetched("", "", [], []));
  }

  /** Leaves without an event, and an event without leaves, exactly. */
  lemma EventsAndChangesExactly(tree: Tree, slots: seq<Slot>, groups: seq<Group>, fetched: seq<Fetched>)
    requires DistinctGroups(fetched)
    ensures
      var t, admitted := Pass(tree, slots, groups, fetched), Admitted(tree, slots, groups, fetched);
      && (t.changed && t.slots == slots <==> SomeAnnounces(tree, slots, groups, fetched) && admitted == [])
      && (!t.changed && t.slots != slots <==> !SomeAnnounces(tree, slots, groups, fetched) && admitted != [])
  {
    hide Pass, SomeAnnounces, Admitted;
    PassAddsAndPublishes(tree, slots, groups, fetched);
    var admitted := Admitted(tree, slots, groups, fetched);
    assert slots + [] == slots && (admitted != [] ==> |slots + admitted| > |slots|);
  }

  // ----- the records -----

  /** The record of a fetched group after its part of the pass. */
  function RecordAfter(before: Option<Group>, f: Fetched, fits: bool): Option<Group> {
    var n := |f.members|;
    match before
    case None => if fits then Some(Group(f.groupId, f.name, n, n)) else None
    case Some(group) =>
      Some(Group(group.groupId, group.name, if f.removed == [] then n else group.size,
                 if group.numberOfLeaves < n && fits then n else group.numberOfLeaves))
  }

  lemma SyncGroupRecords(tree: Tree, s: SyncState, inDb: seq<Group>, f: Fetched)
    requires FindGroup(s.groups, f.groupId) == FindGroup(inDb, f.groupId)
    ensures FindGroup(SyncGroup(tree, s, FindGroup(inDb, f.groupId), f).groups, f.groupId)
            == RecordAfter(FindGroup(inDb, f.groupId), f, Fits(tree, s.slots, f, 0))
  {
    hide IsMember, Appended, FindGroup, UpdateNumberOfLeaves, UpdateSize, Newcomers;
    var n := |f.members|;
    AppendedAdds(s.slots, f.members, f.groupId, tree.capacity);
    if f.members == [] { NobodyIsNew(s.slots, f.groupId); }
    FindAfterUpdates(s.groups, f.groupId, n, f.groupId);
    FindAfterUpdates(UpdateNumberOfLeaves(s.groups, f.groupId, n), f.groupId, n, f.groupId);
    FindAfterSave(s.groups, Group(f.groupId, f.name, n, n), f.groupId);
  }

  /**
     The records a pass leaves: a new group has one, with its fetched name and size, exactly when
     its append fits; a recorded group keeps its name, and gets the fetched number of leaves when
     it lags and its append fits, and the fetched size unless removed members are listed. All
     other records stay.
   */
  lemma {:induction false} RecordsExactly(tree: Tree, slots: seq<Slot>, groups: seq<Group>, fetched: seq<Fetched>,
                                          i: nat, id: string)
    requires DistinctGroups(fetched) && i < |fetched|
    ensures
      var t, f := Pass(tree, slots, groups, fetched), fetched[i];
      && FindGroup(t.groups, f.groupId)
         == RecordAfter(FindGroup(groups, f.groupId), f, Fits(tree, slots, f, |Wanted(slots, groups, fetched[..i])|))
      && ((forall x | x in fetched :: x.groupId != id) ==> FindGroup(t.groups, id) == FindGroup(groups, id))
    decreases |fetched|
  {
    hide Newcomers, SyncGroup, FindGroup, Asked, RecordAfter, Settled;
    var s, rest, last := SyncState(slots, groups, false), fetched[..|fetched| - 1], fetched[|fetched| - 1];
    var before := SyncGroups(tree, groups, s, rest);
    PassSettlesEveryGroup(tree, s, fetched);
    PassSettlesEveryGroup(tree, s, rest);
    assert FindGroup(before.groups, last.groupId) == FindGroup(groups, last.groupId);
    if i == |fetched| - 1 {
      SyncGroupsAdd(tree, s, rest, last);
      SyncGroupRecords(tree, before, groups, last);
      FitsLater(tree, slots, before.slots, last, Wanted(slots, groups, rest));
    } else {
      assert rest[..i] == fetched[..i];
      RecordsExactly(tree, slots, groups, rest, i, id);
      OtherGroupIsUntouched(tree, before, FindGroup(groups, last.groupId), rest[i].groupId, last);
    }
  }

  lemma FitsLater(tree: Tree, slots: seq<Slot>, now: seq<Slot>, f: Fetched, wanted: seq<Slot>)
    requires Newcomers(now, f.members, f.groupId) == Newcomers(slots, f.members, f.groupId)
    requires now == slots + if tree.seeded then UpTo(wanted, Room(slots, tree.capacity)) else []
    ensures Fits(tree, now, f, 0) <==> Fits(tree, slots, f, |wanted|)
  {
    hide Newcomers;
  }

  // ----- the root -----

  /** Added leaves change the root: the first leaf at all does, and later any that is not empty. */
  predicate MovesRoot(zeroValue: nat, slots: seq<Slot>, added: seq<Slot>) {
    if slots == [] then added != [] else exists i | 0 <= i < |added| :: added[i].hash != zeroValue
  }

  lemma AddedLeavesMoveRoot(c: TreeConfig, slots: seq<Slot>, added: seq<Slot>)
    requires |slots + added| <= Pow2(c.levels)
    ensures !MovesRoot(c.zeroValue, slots, added) ==> c.RootOf(slots + added) == c.RootOf(slots)
    ensures c.Injective() && MovesRoot(c.zeroValue, slots, added) ==> c.RootOf(slots + added) != c.RootOf(slots)
  {
    hide c.SubRoot, c.Injective;
    if slots != [] {
      var a, b := Hashes(slots), Hashes(slots + added);
      assert a == b[..|a|];
      forall i | 0 <= i < |added| ensures b[|a| + i] == added[i].hash { }
      c.RootOfLongerList(a, b);
      if forall i | |a| <= i < |b| :: b[i] == c.zeroValue {
        forall i | 0 <= i < |added| ensures added[i].hash == c.zeroValue { assert b[|a| + i] == c.zeroValue; }
      } else {
        var i :| |a| <= i < |b| && b[i] != c.zeroValue;
        assert added[i - |a|].hash != c.zeroValue;
      }
    }
  }

  lemma AdmittedFit(tree: Tree, slots: seq<Slot>, groups: seq<Group>, fetched: seq<Fetched>)
    requires |slots| <= tree.capacity
    ensures |slots + Admitted(tree, slots, groups, fetched)| <= tree.capacity
  {
  }

  /**
     The event and the root: with a collision-free hash, a pass changes the root exactly when
     it admits a first leaf or a leaf that is not empty. So these are exactly the passes that
     publish an event although the root did not change, and the passes that change the root
     without an event.
   */
  lemma EventsAndRootsExactly(c: TreeConfig, seeded: bool, slots: seq<Slot>, groups: seq<Group>, fetched: seq<Fetched>)
    requires c.Injective() && DistinctGroups(fetched) && |slots| <= Pow2(c.levels)
    ensures
      var tree := Tree(Pow2(c.levels), seeded);
      var t := Pass(tree, slots, groups, fetched);
      var moves := MovesRoot(c.zeroValue, slots, Admitted(tree, slots, groups, fetched));
      && (c.RootOf(t.slots) != c.RootOf(slots) <==> moves)
      && (t.changed && c.RootOf(t.slots) == c.RootOf(slots) <==> SomeAnnounces(tree, slots, groups, fetched) && !moves)
      && (!t.changed && c.RootOf(t.slots) != c.RootOf(slots) <==> !SomeAnnounces(tree, slots, groups, fetched) && moves)
  {
    hide Pass, SomeAnnounces, Admitted, MovesRoot, c.Injective, c.RootOf;
    var tree := Tree(Pow2(c.levels), seeded);
    PassAddsAndPublishes(tree, slots, groups, fetched);
    AdmittedFit(tree, slots, groups, fetched);
    AddedLeavesMoveRoot(c, slots, Admitted(tree, slots, groups, fetched));
  }

  /**
     A member whose commitment is the empty leaf, as removed members are listed: announced,
     appended, and no new root.
     */
  lemma ZeroMemberIsAnnounced(c: TreeConfig, slots: seq<Slot>, group: Group, f: Fetched)
    requires slots != [] && |slots| < Pow2(c.levels) && f.groupId == group.groupId
    requires group.numberOfLeaves < |f.members|
    requires Newcomers(slots, f.members, f.groupId) == [Slot(f.groupId, |f.members| - 1, c.zeroValue)]
    ensures
      var t := Pass(Tree(Pow2(c.levels), true), slots, [group], [f]);
      && t.changed && t.slots == slots + [Slot(f.groupId, |f.members| - 1, c.zeroValue)]
      && c.RootOf(t.slots) == c.RootOf(slots)
  {
    hide Newcomers, c.RootOf;
    var tree, added := Tree(Pow2(c.levels), true), [Slot(f.groupId, |f.members| - 1, c.zeroValue)];
    PassOverOne(tree, slots, [group], f);
    SyncGroupAdds(tree, SyncState(slots, [group], false), [group], f);
    AddedLeavesMoveRoot(c, slots, added);
  }

  /**
     No pass takes a member out, whatever its lists say of that member: the leaf stays, and its
     commitment can still be proved against the root of the leaves.
   */
  lemma RemovedMembersStayProvable(c: TreeConfig, seeded: bool, slots: seq<Slot>, groups: seq<Group>,
                                   fetched: seq<Fetched>, i: nat)
    requires DistinctGroups(fetched) && i < |slots| <= Pow2(c.levels)
    ensures var t := Pass(Tree(Pow2(c.levels), seeded), slots, groups, fetched);
            i < |t.slots| && t.slots[i] == slots[i] && c.Provable(c.Root(Hashes(t.slots)), slots[i].hash, i)
  {
    hide Pass, Admitted, c.SubRoot, c.Provable;
    var tree := Tree(Pow2(c.levels), seeded);
    PassAddsAndPublishes(tree, slots, groups, fetched);
    AdmittedFit(tree, slots, groups, fetched);
    c.ProvableExactlyTheLeaf(Hashes(Pass(tree, slots, groups, fetched).slots), slots[i].hash, i);
  }

  // ----- one group -----

  /**
     For one group: leaves come without an event exactly when its append cannot take everybody
     and no size is replaced.
     */
  lemma TreeChangesSilentlyExactlyWhenCutShort(tree: Tree, slots: seq<Slot>, groups: seq<Group>, f: Fetched)
    ensures
      var t, newcomers := Pass(tree, slots, groups, [f]), Newcomers(slots, f.members, f.groupId);
      (t.slots != slots && !t.changed) <==>
        && tree.seeded && 0 < Room(slots, tree.capacity) < |newcomers|
        && (FindGroup(groups, f.groupId).Some? ==>
              FindGroup(groups, f.groupId).value.numberOfLeaves < |f.members| && !Resizes(groups, f))
  {
    hide SyncGroup, FindGroup, Newcomers;
    PassOverOne(tree, slots, groups, f);
    SyncGroupAdds(tree, SyncState(slots, groups, false), groups, f);
    if f.members == [] { NobodyIsNew(slots, f.groupId); }
  }

  /** For one group: an event comes without new leaves in exactly these cases. */
  lemma EventWithoutLeavesExactlyWhen(tree: Tree, slots: seq<Slot>, groups: seq<Group>, f: Fetched)
    ensures
      var t, newcomers := Pass(tree, slots, groups, [f]), Newcomers(slots, f.members, f.groupId);
      (t.slots == slots && t.changed) <==>
        match FindGroup(groups, f.groupId)
        case None => f.members == [] || (tree.seeded && newcomers == [])
        case Some(group) =>
          if group.numberOfLeaves >= |f.members| then Resizes(groups, f)
          else (tree.seeded && newcomers == [])
               || (Resizes(groups, f) && !(tree.seeded && newcomers != [] && Room(slots, tree.capacity) > 0))
  {
    hide SyncGroup, FindGroup, Newcomers;
    PassOverOne(tree, slots, groups, f);
    SyncGroupAdds(tree, SyncState(slots, groups, false), groups, f);
    if f.members == [] { NobodyIsNew(slots, f.groupId); }
  }
}
