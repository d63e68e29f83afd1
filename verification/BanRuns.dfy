/**
 Who stays locked out after a run with several bans. Every ban zeroes a leaf with one update
 of the stored tree, and the handler appends nothing, so only the last update shows.
 */
module BanRuns {
  import opened Prelude
  import opened MerkleTree
  import opened MerkleRuns
  import opened UserServices
  import opened Admission
  import opened AdmissionRuns

  /** The updates that some bans make. */
  function BanUpdates(cfg: Config, records: seq<BannedUser>): (updates: seq<Update>)
    ensures |updates| == |records|
    ensures forall i | 0 <= i < |records| :: updates[i] == Update(records[i].leafIndex, cfg.tree.zeroValue)
  {
    seq(|records|, i requires 0 <= i < |records| => Update(records[i].leafIndex, cfg.tree.zeroValue))
  }

  /** The bans of a run, from the records it started with. */
  function NewBans(s: Server, now: Server): seq<BannedUser>
    requires s.banned <= now.banned
  {
    now.banned[|s.banned|..]
  }

  ghost predicate Zeroes(records: seq<BannedUser>, leaf: nat) {
    exists i | 0 <= i < |records| :: records[i].leafIndex == leaf
  }

  /** The tree is the one the bans made, each of its own leaf, and all other leaves are as they were. */
  ghost predicate BansSoFar(cfg: Config, s: Server, now: Server) {
    && s.banned <= now.banned && |now.slots| == |s.slots|
    && Updatable(cfg.tree, s.nodes, |s.slots|, BanUpdates(cfg, NewBans(s, now)))
    && now.nodes == AfterUpdates(cfg.tree, s.nodes, |s.slots|, BanUpdates(cfg, NewBans(s, now)))
    && (forall r | r in NewBans(s, now) :: r.leafIndex < |s.slots| && s.slots[r.leafIndex].hash == r.idCommitment)
    && (forall leaf | 0 <= leaf < |s.slots| && !Zeroes(NewBans(s, now), leaf) :: now.slots[leaf] == s.slots[leaf])
    && DistinctLeaves(NewBans(s, now))
  }

  ghost predicate DistinctLeaves(records: seq<BannedUser>) {
    forall i, j | 0 <= i < j < |records| :: records[i].leafIndex != records[j].leafIndex
  }

  lemma NoBansYet(cfg: Config, s: Server)
    requires ValidServer(cfg, s)
    ensures BansSoFar(cfg, s, s)
  {
    hide cfg.tree.Shape, HoldsSlots;
    assert NewBans(s, s) == [];
  }

  lemma BanUpdatesOneMore(cfg: Config, records: seq<BannedUser>, r: BannedUser)
    ensures BanUpdates(cfg, records + [r]) == BanUpdates(cfg, records) + [Update(r.leafIndex, cfg.tree.zeroValue)]
  {
  }

  lemma ZeroesOneMore(records: seq<BannedUser>, r: BannedUser, leaf: nat)
    ensures Zeroes(records + [r], leaf) <==> Zeroes(records, leaf) || r.leafIndex == leaf
  {
    if Zeroes(records, leaf) {
      var i :| 0 <= i < |records| && records[i].leafIndex == leaf;
      assert (records + [r])[i].leafIndex == leaf;
    }
    if r.leafIndex == leaf { assert (records + [r])[|records|].leafIndex == leaf; }
  }

  /** What a ban does, as far as the tree and the records go. */
  lemma BanEffect(cfg: Config, now: Server, secret: nat)
    requires ValidServer(cfg, now)
    ensures
      var (after, outcome) := Ban(cfg, now, secret);
      if !outcome.Banned? then after == now
      else
        var v := cfg.rln.commitment(secret);
        var i := FirstLeaf(now.slots, v);
        && i.Some? && now.slots[i.value].hash == v && !BanConflicts(now.banned, BannedUser(v, i.value, secret))
        && after.banned == now.banned + [BannedUser(v, i.value, secret)]
        && cfg.tree.PathStored(now.nodes, i.value)
        && after.nodes == cfg.tree.SetPath(now.nodes, i.value, cfg.tree.zeroValue, cfg.tree.levels)
        && after.slots == now.slots[i.value := now.slots[i.value].(hash := cfg.tree.zeroValue)]
  {
    hide cfg.tree.Shape, HoldsSlots, cfg.tree.SetPath, BanConflicts;
    if Ban(cfg, now, secret).1.Banned? { BanSetsAPath(cfg, now, secret); }
  }

  lemma BanKeepsBansSoFar(cfg: Config, s: Server, now: Server, secret: nat)
    requires ValidServer(cfg, s) && ValidServer(cfg, now) && BansSoFar(cfg, s, now)
    ensures BansSoFar(cfg, s, Ban(cfg, now, secret).0)
  {
    hide ValidServer, Ban, FirstLeaf, AfterUpdates, Updatable, Zeroes, cfg.tree.SetPath, cfg.tree.PathStored;
    var (after, outcome) := Ban(cfg, now, secret);
    BanEffect(cfg, now, secret);
    if outcome.Banned? {
      var records, i := NewBans(s, now), FirstLeaf(now.slots, cfg.rln.commitment(secret)).value;
      var r := BannedUser(cfg.rln.commitment(secret), i, secret);
      assert NewBans(s, after) == records + [r];
      BanUpdatesOneMore(cfg, records, r);
      NewBanIsOfAnotherLeaf(s, now, r);
      UpdatableOneMore(cfg, s, BanUpdates(cfg, records), Update(i, cfg.tree.zeroValue));
      AfterOneMoreUpdate(cfg.tree, s.nodes, |s.slots|, BanUpdates(cfg, records), Update(i, cfg.tree.zeroValue));
      forall leaf: nat ensures Zeroes(records + [r], leaf) <==> Zeroes(records, leaf) || i == leaf {
        ZeroesOneMore(records, r, leaf);
      }
      forall x | x in records + [r] ensures x.leafIndex < |s.slots| && s.slots[x.leafIndex].hash == x.idCommitment { }
    }
  }

  lemma UpdatableOneMore(cfg: Config, s: Server, updates: seq<Update>, u: Update)
    requires Updatable(cfg.tree, s.nodes, |s.slots|, updates) && u.leaf < |s.slots|
    ensures Updatable(cfg.tree, s.nodes, |s.slots|, updates + [u])
  {
  }

  lemma NewBanIsOfAnotherLeaf(s: Server, now: Server, r: BannedUser)
    requires s.banned <= now.banned && !BanConflicts(now.banned, r) && DistinctLeaves(NewBans(s, now))
    ensures !Zeroes(NewBans(s, now), r.leafIndex) && DistinctLeaves(NewBans(s, now) + [r])
  {
    forall i | 0 <= i < |NewBans(s, now)| ensures NewBans(s, now)[i].leafIndex != r.leafIndex {
      assert NewBans(s, now)[i] == now.banned[|s.banned| + i];
    }
  }

  lemma StepKeepsBansSoFar(cfg: Config, s: Server, now: Server, event: Event)
    requires ValidServer(cfg, s) && ValidServer(cfg, now) && BansSoFar(cfg, s, now)
    ensures BansSoFar(cfg, s, Step(cfg, now, event).0)
  {
    hide ValidServer, Ban, AfterUpdates, Updatable, VerifyEpoch, IsZkProofValid, IsSpam, StoredRoot, RecoverSecret;
    forall secret ensures BansSoFar(cfg, s, Ban(cfg, now, secret).0) {
      BanKeepsBansSoFar(cfg, s, now, secret);
    }
  }

  lemma {:induction false} RunKeepsBansSoFar(cfg: Config, s: Server, events: seq<Event>)
    requires ValidServer(cfg, s)
    ensures BansSoFar(cfg, s, Run(cfg, s, events))
    decreases |events|
  {
    hide ValidServer, BansSoFar, Step;
    if events == [] {
      NoBansYet(cfg, s);
    } else {
      RunKeepsBansSoFar(cfg, s, events[..|events| - 1]);
      StepKeepsBansSoFar(cfg, s, Run(cfg, s, events[..|events| - 1]), events[|events| - 1]);
    }
  }

  /** The stored root after a run is that of the original leaves with only the last ban's leaf zeroed. */
  lemma OnlyTheLastBanShows(cfg: Config, s: Server, events: seq<Event>)
    requires ValidServer(cfg, s) && cfg.tree.HashOk(s.nodes) && cfg.tree.Fresh(s.nodes)
    ensures s.banned <= Run(cfg, s, events).banned
    ensures var now := Run(cfg, s, events);
            NewBans(s, now) != [] ==>
              var last := NewBans(s, now)[|NewBans(s, now)| - 1];
              && last.leafIndex < |s.slots| && now.slots != []
              && StoredRoot(cfg, now) == Some(cfg.tree.Root(Hashes(s.slots)[last.leafIndex := cfg.tree.zeroValue]))
  {
    hide cfg.tree.Shape, HoldsSlots, cfg.tree.HashOk, cfg.tree.Fresh, cfg.tree.Root, Run, AfterUpdates, Zeroes;
    RunKeepsBansSoFar(cfg, s, events);
    var now := Run(cfg, s, events);
    var records := NewBans(s, now);
    if records != [] {
      assert records[|records| - 1] in records;
      FreshTreeShowsTheLastUpdate(cfg.tree, s.nodes, |s.slots|, BanUpdates(cfg, records));
      cfg.tree.LeafHashesOfSlots(s.nodes, s.slots);
    }
  }

  /**
     From a fresh tree, of all users banned in a run, exactly the last one is locked out: the
     commitment of every earlier one can be proved at its old leaf again, and that of the last
     one only at other leaves that hold it too.
   */
  lemma OnlyTheLastBannedIsLockedOut(cfg: Config, s: Server, events: seq<Event>, k: nat, j: nat)
    requires ValidServer(cfg, s) && cfg.tree.HashOk(s.nodes) && cfg.tree.Fresh(s.nodes) && cfg.tree.Injective()
    requires s.banned <= Run(cfg, s, events).banned && k < |NewBans(s, Run(cfg, s, events))|
    requires j < Pow2(cfg.tree.levels)
    requires NewBans(s, Run(cfg, s, events))[k].idCommitment != cfg.tree.zeroValue
    ensures Run(cfg, s, events).slots != []
    ensures
      var now := Run(cfg, s, events);
      var records := NewBans(s, now);
      var v, root := records[k].idCommitment, StoredRoot(cfg, now).value;
      && (k < |records| - 1 ==> cfg.tree.Provable(root, v, records[k].leafIndex))
      && (k == |records| - 1 ==>
            (cfg.tree.Provable(root, v, j) <==> j < |s.slots| && s.slots[j].hash == v && j != records[k].leafIndex))
  {
    hide ValidServer, StoredRoot, Run, AfterUpdates, Updatable, Zeroes, cfg.tree.HashOk, cfg.tree.Fresh,
         cfg.tree.Injective, cfg.tree.SubRoot, cfg.tree.Root, cfg.tree.Provable;
    var now := Run(cfg, s, events);
    var records := NewBans(s, now);
    OnlyTheLastBanShows(cfg, s, events);
    RunKeepsBansSoFar(cfg, s, events);
    assert records[k] in records;
    var last := records[|records| - 1];
    var shown := Hashes(s.slots)[last.leafIndex := cfg.tree.zeroValue];
    LeavesFit(cfg, s);
    if k < |records| - 1 {
      cfg.tree.ProvableExactlyTheLeaf(shown, records[k].idCommitment, records[k].leafIndex);
    } else {
      cfg.tree.ProvableExactlyTheLeaf(shown, records[k].idCommitment, j);
    }
  }

  lemma LeavesFit(cfg: Config, s: Server)
    requires ValidServer(cfg, s)
    ensures |s.slots| <= Pow2(cfg.tree.levels)
  {
  }
}
