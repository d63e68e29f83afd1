/**
 What holds over every sequential run of the message handler, for a sound proof system: the
 recovered secret is the sender's, and nobody who stays within the limit is banned. The
 server compares the plain share of a message with nothing inside the proof; where a result
 needs the two to agree, it needs so of the messages of one nullifier only.
 */
module AdmissionRuns {
  import opened Prelude
  import opened MerkleTree
  import opened PrimeField
  import opened UserServices
  import opened Admission
  import opened MerkleRuns

  // ----- assumptions -----

  /** The plain share of the message is the point inside its proof. */
  ghost predicate PlainPoint(m: RLNMessage) {
    m.xShare == m.zkProof.signalHash
  }

  /** What a prover must know: a secret whose commitment is a leaf under the proof's root. */
  datatype Witness = Witness(secret: nat, leafIndex: nat, siblings: seq<nat>)

  /** The share is the value, at x, of the secret's line for an external nullifier. */
  ghost predicate PointFor(cfg: Config, secret: nat, external: nat, share: Share) {
    && secret < cfg.rln.p && share.x < cfg.rln.p
    && share.nullifier == cfg.rln.nullifier(cfg.rln.slope(secret, external))
    && share.y == (secret + cfg.rln.slope(secret, external) * share.x) % cfg.rln.p
  }

  /** The share is a point of a line of the secret. */
  ghost predicate OnLine(cfg: Config, secret: nat, share: Share) {
    exists external :: PointFor(cfg, secret, external, share)
  }

  ghost predicate Opens(cfg: Config, proof: Proof, w: Witness) {
    var a1 := cfg.rln.slope(w.secret, proof.externalNullifier);
    && cfg.rln.p > 0 && w.secret < cfg.rln.p && proof.signalHash < cfg.rln.p
    && proof.internalNullifier == cfg.rln.nullifier(a1)
    && proof.yShare == (w.secret + a1 * proof.signalHash) % cfg.rln.p
    && w.leafIndex < Pow2(cfg.tree.levels) && |w.siblings| == cfg.tree.levels
    && cfg.tree.Fold(cfg.rln.commitment(w.secret), w.leafIndex, w.siblings, cfg.tree.levels) == proof.merkleRoot
  }

  /** The proof system is sound, over a prime field, and different lines have different nullifiers. */
  ghost predicate Ideal(cfg: Config) {
    && IsPrime(cfg.rln.p)
    && (forall proof | cfg.rln.verifySnark(proof) :: exists w :: Opens(cfg, proof, w))
    && forall a, b, e, f | cfg.rln.nullifier(cfg.rln.slope(a, e)) == cfg.rln.nullifier(cfg.rln.slope(b, f)) ::
         a == b && cfg.rln.slope(a, e) == cfg.rln.slope(b, f)
  }

  // ----- runs -----

  ghost function Run(cfg: Config, s: Server, events: seq<Event>): (r: Server)
    requires ValidServer(cfg, s)
    ensures ValidServer(cfg, r)
    decreases |events|
  {
    if events == [] then s
    else Step(cfg, Run(cfg, s, events[..|events| - 1]), events[|events| - 1]).0
  }

  /** What the handler answered to the last event of a run. */
  ghost function LastOutcome(cfg: Config, s: Server, events: seq<Event>): Outcome
    requires ValidServer(cfg, s) && events != []
  {
    Step(cfg, Run(cfg, s, events[..|events| - 1]), events[|events| - 1]).1
  }

  function NullifierOf(e: Event): nat {
    e.message.zkProof.internalNullifier
  }

  /** The messages of the nullifier carry the points inside their proofs. */
  ghost predicate PlainPoints(events: seq<Event>, nullifier: nat) {
    forall e | e in events && NullifierOf(e) == nullifier :: PlainPoint(e.message)
  }

  ghost predicate Backed(cfg: Config, share: Share) {
    exists secret :: OnLine(cfg, secret, share)
  }

  ghost predicate NoRepeats(stats: seq<Share>) {
    forall i, j | 0 <= i < j < |stats| :: stats[i] != stats[j]
  }

  /** Saved shares never repeat and stay within the limit, whoever sent them. */
  ghost predicate WithinLimit(cfg: Config, stats: seq<Share>) {
    && NoRepeats(stats)
    && forall epoch, nullifier :: |SharesFor(stats, epoch, nullifier)| <= Limit(cfg.spamThreshold)
  }

  /** Saved shares stay within the limit, and those of the nullifier are backed by secrets. */
  ghost predicate Inv(cfg: Config, stats: seq<Share>, nullifier: nat) {
    WithinLimit(cfg, stats) && forall share | share in stats && share.nullifier == nullifier :: Backed(cfg, share)
  }

  lemma NoSharesKeepInv(cfg: Config, nullifier: nat)
    ensures Inv(cfg, [], nullifier) && WithinLimit(cfg, [])
  {
    assert forall epoch, n :: SharesFor([], epoch, n) == [];
  }

  // ----- the share records -----

  lemma {:induction false} SharesForAreSaved(stats: seq<Share>, epoch: int, nullifier: nat)
    ensures forall share | share in SharesFor(stats, epoch, nullifier) ::
              share in stats && share.epoch == epoch && share.nullifier == nullifier
    ensures NoRepeats(stats) ==> NoRepeats(SharesFor(stats, epoch, nullifier))
    decreases |stats|
  {
    if stats != [] {
      SharesForAreSaved(stats[..|stats| - 1], epoch, nullifier);
    }
  }

  lemma SharesForAfterSave(stats: seq<Share>, share: Share, epoch: int, nullifier: nat)
    ensures SharesFor(stats + [share], epoch, nullifier)
            == SharesFor(stats, epoch, nullifier)
               + (if share.epoch == epoch && share.nullifier == nullifier then [share] else [])
  {
    assert (stats + [share])[..|stats|] == stats;
  }

  /** A verified message carries a point of a line of a secret in the tree, if its plain share is the proven one. */
  lemma VerifiedShareIsBacked(cfg: Config, m: RLNMessage, root: nat) returns (w: Witness)
    requires Ideal(cfg) && PlainPoint(m) && IsZkProofValid(cfg, m.zkProof, root)
    ensures OnLine(cfg, w.secret, ShareOf(m)) && w.leafIndex < Pow2(cfg.tree.levels)
    ensures cfg.tree.Provable(root, cfg.rln.commitment(w.secret), w.leafIndex)
  {
    w :| Opens(cfg, m.zkProof, w);
    assert PointFor(cfg, w.secret, m.zkProof.externalNullifier, ShareOf(m));
  }

  /** And, with a proper slope, only then. */
  lemma PointIsOnLineExactlyWhenPlain(cfg: Config, m: RLNMessage, w: Witness)
    requires Ideal(cfg) && Opens(cfg, m.zkProof, w)
    requires cfg.rln.slope(w.secret, m.zkProof.externalNullifier) % cfg.rln.p != 0
    ensures OnLine(cfg, w.secret, ShareOf(m)) <==> PlainPoint(m)
  {
    hide IsPrime;
    var p, a1, x, y := cfg.rln.p, cfg.rln.slope(w.secret, m.zkProof.externalNullifier), m.xShare, m.zkProof.signalHash;
    if PlainPoint(m) {
      assert PointFor(cfg, w.secret, m.zkProof.externalNullifier, ShareOf(m));
    }
    if OnLine(cfg, w.secret, ShareOf(m)) && x != y {
      var e :| PointFor(cfg, w.secret, e, ShareOf(m));
      SameNullifierSameLine(cfg, w.secret, w.secret, e, m.zkProof.externalNullifier);
      ValueTwiceIsLevel(p, w.secret, a1, x, y);
    }
  }

  lemma SameNullifierSameLine(cfg: Config, a: nat, b: nat, e: nat, f: nat)
    requires Ideal(cfg) && cfg.rln.nullifier(cfg.rln.slope(a, e)) == cfg.rln.nullifier(cfg.rln.slope(b, f))
    ensures a == b && cfg.rln.slope(a, e) == cfg.rln.slope(b, f)
  {
  }

  lemma SameNullifierSameSecret(cfg: Config, a: nat, b: nat, s: Share, t: Share)
    requires Ideal(cfg) && OnLine(cfg, a, s) && OnLine(cfg, b, t) && s.nullifier == t.nullifier
    ensures a == b
  {
    hide IsPrime;
    var e :| PointFor(cfg, a, e, s);
    var f :| PointFor(cfg, b, f, t);
    SameNullifierSameLine(cfg, a, b, e, f);
  }

  /** On one line, different points have different abscissas. */
  lemma DifferentPointsDifferInX(cfg: Config, secret: nat, s: Share, t: Share)
    requires Ideal(cfg) && OnLine(cfg, secret, s) && OnLine(cfg, secret, t)
    requires s.epoch == t.epoch && s.nullifier == t.nullifier && s != t
    ensures s.x != t.x
  {
    hide IsPrime;
    var e :| PointFor(cfg, secret, e, s);
    var f :| PointFor(cfg, secret, f, t);
    SameNullifierSameLine(cfg, secret, secret, e, f);
  }

  lemma SavedSharesAreOnTheLine(cfg: Config, stats: seq<Share>, own: Share, secret: nat)
    requires Ideal(cfg) && Inv(cfg, stats, own.nullifier) && OnLine(cfg, secret, own)
    ensures forall share | share in SharesFor(stats, own.epoch, own.nullifier) ::
              && OnLine(cfg, secret, share) && share in stats
              && share.epoch == own.epoch && share.nullifier == own.nullifier
  {
    hide Ideal, OnLine;
    SharesForAreSaved(stats, own.epoch, own.nullifier);
    forall share | share in SharesFor(stats, own.epoch, own.nullifier)
      ensures OnLine(cfg, secret, share)
    {
      assert Backed(cfg, share);
      var other :| OnLine(cfg, other, share);
      SameNullifierSameSecret(cfg, other, secret, share, own);
    }
  }

  lemma TwoPointsOfALineRecover(cfg: Config, secret: nat, s: Share, t: Share)
    requires Ideal(cfg) && OnLine(cfg, secret, s) && OnLine(cfg, secret, t) && s.nullifier == t.nullifier && s.x != t.x
    ensures ShamirRecovery(cfg.rln.p, s.x, t.x, s.y, t.y) == Some(secret)
  {
    hide ShamirRecovery, IsPrime;
    var e :| PointFor(cfg, secret, e, s);
    var f :| PointFor(cfg, secret, f, t);
    SameNullifierSameLine(cfg, secret, secret, e, f);
    DistinctResidues(s.x, t.x, cfg.rln.p);
    TwoSharesRevealTheSecret(cfg.rln.p, secret, cfg.rln.slope(secret, e), s.x, t.x, s.y, t.y);
  }

  /** Whoever is interpolated in the spam branch, it is the sender: two distinct points of the sender's line. */
  lemma RecoveryFindsSender(cfg: Config, stats: seq<Share>, own: Share, secret: nat)
    requires Ideal(cfg) && Inv(cfg, stats, own.nullifier) && OnLine(cfg, secret, own) && own !in stats
    requires cfg.rln.p > 0 && SharesFor(stats, own.epoch, own.nullifier) != []
    ensures
      var shares := SharesFor(stats, own.epoch, own.nullifier) + [own];
      && OnLine(cfg, secret, shares[0]) && OnLine(cfg, secret, shares[1]) && shares[0].x != shares[1].x
    ensures RecoverSecret(cfg, SharesFor(stats, own.epoch, own.nullifier), own) == Some(secret)
  {
    hide ShamirRecovery, OnLine, Ideal;
    var saved := SharesFor(stats, own.epoch, own.nullifier);
    var first, second := saved[0], (saved + [own])[1];
    SharesForAreSaved(stats, own.epoch, own.nullifier);
    SavedSharesAreOnTheLine(cfg, stats, own, secret);
    assert first in saved && (second == own || second == saved[1]);
    DifferentPointsDifferInX(cfg, secret, first, second);
    TwoPointsOfALineRecover(cfg, secret, first, second);
  }

  // ----- one step -----

  lemma StepSavesAtMostItsShare(cfg: Config, s: Server, event: Event)
    requires ValidServer(cfg, s)
    ensures Step(cfg, s, event).0.stats
            == if Step(cfg, s, event).1.Accepted? then s.stats + [ShareOf(event.message)] else s.stats
  {
    hide cfg.tree.Shape, HoldsSlots, cfg.tree.SetPath, BanConflicts, FirstLeaf, IsSpam, RecoverSecret, StoredRoot,
         IsZkProofValid, VerifyEpoch;
  }

  /** No message at all takes a user's shares of an epoch beyond the limit. */
  lemma StepKeepsWithinLimit(cfg: Config, s: Server, event: Event)
    requires ValidServer(cfg, s) && WithinLimit(cfg, s.stats)
    ensures WithinLimit(cfg, Step(cfg, s, event).0.stats)
  {
    hide ValidServer, StoredRoot, LeafZeroed, FirstLeaf, BanConflicts, VerifyEpoch, IsZkProofValid,
         RecoverSecret, SharesFor;
    SpamMeansLimitReached(s.stats, event.message.epoch, ShareOf(event.message).nullifier, cfg.spamThreshold);
    var share := ShareOf(event.message);
    StepSavesAtMostItsShare(cfg, s, event);
    forall epoch, nullifier
      ensures |SharesFor(s.stats + [share], epoch, nullifier)|
              == |SharesFor(s.stats, epoch, nullifier)|
                 + (if share.epoch == epoch && share.nullifier == nullifier then 1 else 0)
    {
      SharesForAfterSave(s.stats, share, epoch, nullifier);
    }
  }

  lemma StepKeepsInv(cfg: Config, s: Server, event: Event, nullifier: nat)
    requires ValidServer(cfg, s) && Ideal(cfg) && Inv(cfg, s.stats, nullifier)
    requires NullifierOf(event) == nullifier ==> PlainPoint(event.message)
    ensures Inv(cfg, Step(cfg, s, event).0.stats, nullifier)
  {
    hide OnLine, Ideal, WithinLimit, cfg.tree.Shape, HoldsSlots, cfg.tree.SetPath, FirstLeaf, BanConflicts;
    StepSavesAtMostItsShare(cfg, s, event);
    StepKeepsWithinLimit(cfg, s, event);
    if Step(cfg, s, event).1.Accepted? && NullifierOf(event) == nullifier {
      var w := VerifiedShareIsBacked(cfg, event.message, StoredRoot(cfg, s).value);
    }
  }

  /** A ban names the secret of the message's own line, and comes only when the limit is used up. */
  lemma BanNamesTheSender(cfg: Config, s: Server, event: Event)
    requires ValidServer(cfg, s) && Ideal(cfg) && PlainPoint(event.message) && Inv(cfg, s.stats, NullifierOf(event))
    requires Step(cfg, s, event).1.Banned?
    ensures OnLine(cfg, Step(cfg, s, event).1.secret, ShareOf(event.message))
    ensures ShareOf(event.message) !in s.stats
    ensures |SharesFor(s.stats, event.message.epoch, ShareOf(event.message).nullifier)| == Limit(cfg.spamThreshold)
  {
    hide Ideal, OnLine;
    var m, share := event.message, ShareOf(event.message);
    var w := VerifiedShareIsBacked(cfg, m, StoredRoot(cfg, s).value);
    RecoveryFindsSender(cfg, s.stats, share, w.secret);
  }

  /**
     A fresh, proven message gets its sender banned exactly when the limit is used up, the
     commitment is a leaf, and the ban repeats no recorded one. While all stored hashes are
     right, the commitment is a leaf unless it is the empty one.
   */
  lemma BeyondTheLimitTheSenderIsBanned(cfg: Config, s: Server, event: Event) returns (secret: nat)
    requires ValidServer(cfg, s) && Ideal(cfg) && PlainPoint(event.message) && Inv(cfg, s.stats, NullifierOf(event))
    requires VerifyEpoch(event.message.epoch, event.now, cfg.allowedDelay) && ShareOf(event.message) !in s.stats
    requires s.slots != [] && IsZkProofValid(cfg, event.message.zkProof, StoredRoot(cfg, s).value)
    ensures OnLine(cfg, secret, ShareOf(event.message))
    ensures
      var v := cfg.rln.commitment(secret);
      && (Step(cfg, s, event).1 == Banned(secret) <==>
            && |SharesFor(s.stats, event.message.epoch, NullifierOf(event))| >= Limit(cfg.spamThreshold)
            && FirstLeaf(s.slots, v).Some?
            && !BanConflicts(s.banned, BannedUser(v, FirstLeaf(s.slots, v).value, secret)))
      && (cfg.tree.Injective() && cfg.tree.HashOk(s.nodes) && v != cfg.tree.zeroValue ==> FirstLeaf(s.slots, v).Some?)
  {
    hide OnLine, Ideal, cfg.tree.Shape, HoldsSlots, cfg.tree.SetPath, cfg.tree.Injective, cfg.tree.HashOk;
    var m, share := event.message, ShareOf(event.message);
    var w := VerifiedShareIsBacked(cfg, m, StoredRoot(cfg, s).value);
    SpamMeansLimitReached(s.stats, m.epoch, share.nullifier, cfg.spamThreshold);
    secret := w.secret;
    var v := cfg.rln.commitment(secret);
    if cfg.tree.Injective() && cfg.tree.HashOk(s.nodes) && v != cfg.tree.zeroValue {
      ProvenCommitmentIsALeaf(cfg, s, v, w.leafIndex);
    }
    if IsSpam(s.stats, m.epoch, share.nullifier, cfg.spamThreshold) {
      RecoveryFindsSender(cfg, s.stats, share, w.secret);
    }
  }

  /** A non-zero value proved against the stored root is the hash of a stored leaf. */
  lemma ProvenCommitmentIsALeaf(cfg: Config, s: Server, v: nat, i: nat)
    requires ValidServer(cfg, s) && cfg.tree.Injective() && cfg.tree.HashOk(s.nodes) && s.slots != []
    requires v != cfg.tree.zeroValue && i < Pow2(cfg.tree.levels)
    requires cfg.tree.Provable(StoredRoot(cfg, s).value, v, i)
    ensures i < |s.slots| && s.slots[i].hash == v && FirstLeaf(s.slots, v).Some?
  {
    cfg.tree.RootIsStored(s.nodes, |s.slots|);
    cfg.tree.StoredHashIsSubRoot(s.nodes, |s.slots|, cfg.tree.levels, 0);
    cfg.tree.LeafHashesOfSlots(s.nodes, s.slots);
    assert StoredRoot(cfg, s).value == cfg.tree.Root(Hashes(s.slots));
    cfg.tree.ProvableExactlyTheLeaf(Hashes(s.slots), v, i);
  }

  lemma SameTreeSameRoot(cfg: Config, s: Server, now: Server)
    requires ValidServer(cfg, s) && s.slots != [] && now.nodes == s.nodes
    requires now.slots == s.slots && ValidServer(cfg, now)
    ensures StoredRoot(cfg, now) == StoredRoot(cfg, s) && StoredRoot(cfg, s).Some?
  {
    hide cfg.tree.Shape, HoldsSlots;
  }

  // ----- bans and the stored root -----

  /**
     After a ban along a fresh path, the banned commitment can be proved against the stored
     root at exactly the other leaves that hold it.
   */
  lemma FreshBanLeavesOtherLeavesOnly(cfg: Config, s: Server, secret: nat, j: nat)
    requires ValidServer(cfg, s) && cfg.tree.Injective() && cfg.tree.HashOk(s.nodes)
    requires Ban(cfg, s, secret).1.Banned? && cfg.rln.commitment(secret) != cfg.tree.zeroValue
    requires j < Pow2(cfg.tree.levels)
    requires
      var i := FirstLeaf(s.slots, cfg.rln.commitment(secret)).value;
      cfg.tree.PathStored(s.nodes, i) && cfg.tree.PathFresh(s.nodes, i)
    ensures Ban(cfg, s, secret).0.slots != []
    ensures
      var v := cfg.rln.commitment(secret);
      cfg.tree.Provable(StoredRoot(cfg, Ban(cfg, s, secret).0).value, v, j)
      <==> j < |s.slots| && s.slots[j].hash == v && j != FirstLeaf(s.slots, v).value
  {
    hide cfg.tree.Shape, HoldsSlots, cfg.tree.SetPath, cfg.tree.HashOk, cfg.tree.PathFresh, cfg.tree.Provable,
         cfg.tree.Injective;
    var v := cfg.rln.commitment(secret);
    var i := FirstLeaf(s.slots, v).value;
    var after := Ban(cfg, s, secret).0;
    cfg.tree.LeafHashesOfSlots(s.nodes, s.slots);
    cfg.tree.UpdatedRootIsRightExactlyWhenPathFresh(s.nodes, |s.slots|, i, cfg.tree.zeroValue);
    cfg.tree.ProvableExactlyTheLeaf(Hashes(s.slots)[i := cfg.tree.zeroValue], v, j);
  }

  /** No secret is banned twice, so of several leaves with one commitment a ban only ever zeroes the first. */
  lemma RepeatedBanIsRefused(cfg: Config, s: Server, secret: nat, later: Server)
    requires ValidServer(cfg, s) && Ban(cfg, s, secret).1.Banned?
    requires ValidServer(cfg, later) && Ban(cfg, s, secret).0.banned <= later.banned
    ensures Ban(cfg, later, secret).0 == later && !Ban(cfg, later, secret).1.Banned?
  {
    hide cfg.tree.Shape, HoldsSlots, cfg.tree.SetPath, FirstLeaf;
    var record := later.banned[|s.banned|];
    assert record == Ban(cfg, s, secret).0.banned[|s.banned|];
    assert record.secret == secret;
  }

  lemma BanSetsAPath(cfg: Config, s: Server, secret: nat)
    requires ValidServer(cfg, s) && Ban(cfg, s, secret).1.Banned?
    ensures FirstLeaf(s.slots, cfg.rln.commitment(secret)).Some?
    ensures var i := FirstLeaf(s.slots, cfg.rln.commitment(secret)).value;
            && i < |s.slots| == |Ban(cfg, s, secret).0.slots|
            && cfg.tree.PathStored(s.nodes, i)
            && Ban(cfg, s, secret).0.nodes == cfg.tree.SetPath(s.nodes, i, cfg.tree.zeroValue, cfg.tree.levels)
  {
    hide cfg.tree.Shape, HoldsSlots, cfg.tree.SetPath, BanConflicts;
    cfg.tree.ShapeStoresPaths(s.nodes, |s.slots|, FirstLeaf(s.slots, cfg.rln.commitment(secret)).value);
  }

  /**
     A second ban undoes the first one in the stored root. From a tree whose copies are all
     fresh, ban two users with different leaves: the first user's commitment can again be
     proved against the stored root.
   */
  lemma SecondBanReadmitsTheFirstUser(cfg: Config, s: Server, first: nat, second: nat)
    requires ValidServer(cfg, s) && cfg.tree.HashOk(s.nodes) && cfg.tree.Fresh(s.nodes)
    requires Ban(cfg, s, first).1.Banned? && Ban(cfg, Ban(cfg, s, first).0, second).1.Banned?
    requires FirstLeaf(s.slots, cfg.rln.commitment(first))
             != FirstLeaf(Ban(cfg, s, first).0.slots, cfg.rln.commitment(second))
    ensures Ban(cfg, Ban(cfg, s, first).0, second).0.slots != []
    ensures cfg.tree.Provable(StoredRoot(cfg, Ban(cfg, Ban(cfg, s, first).0, second).0).value,
                              cfg.rln.commitment(first), FirstLeaf(s.slots, cfg.rln.commitment(first)).value)
  {
    hide cfg.tree.Shape, HoldsSlots, cfg.tree.SetPath, cfg.tree.Provable, cfg.tree.HashOk, cfg.tree.Fresh, Ban,
         FirstLeaf;
    var c, n, zero := cfg.tree, |s.slots|, cfg.tree.zeroValue;
    var s1 := Ban(cfg, s, first).0;
    BanSetsAPath(cfg, s, first);
    BanSetsAPath(cfg, s1, second);
    var i := FirstLeaf(s.slots, cfg.rln.commitment(first)).value;
    var j := FirstLeaf(s1.slots, cfg.rln.commitment(second)).value;
    AfterOneMoreUpdate(c, s.nodes, n, [], Update(i, zero));
    AfterOneMoreUpdate(c, s.nodes, n, [Update(i, zero)], Update(j, zero));
    assert [] + [Update(i, zero)] == [Update(i, zero)];
    EarlierUpdateIsUndoneForProofs(c, s.nodes, n, [Update(i, zero)] + [Update(j, zero)], i);
    c.LeafHashesOfSlots(s.nodes, s.slots);
    assert c.LeafHashes(s.nodes, n)[i] == cfg.rln.commitment(first);
  }

  // ----- whole runs -----

  lemma {:induction false} RunKeepsWithinLimit(cfg: Config, s: Server, events: seq<Event>)
    requires ValidServer(cfg, s) && WithinLimit(cfg, s.stats)
    ensures WithinLimit(cfg, Run(cfg, s, events).stats)
    decreases |events|
  {
    hide WithinLimit, ValidServer, Step;
    if events != [] {
      RunKeepsWithinLimit(cfg, s, events[..|events| - 1]);
      StepKeepsWithinLimit(cfg, Run(cfg, s, events[..|events| - 1]), events[|events| - 1]);
    }
  }

  lemma {:induction false} RunKeepsInv(cfg: Config, s: Server, events: seq<Event>, nullifier: nat)
    requires ValidServer(cfg, s) && Ideal(cfg) && PlainPoints(events, nullifier) && Inv(cfg, s.stats, nullifier)
    ensures Inv(cfg, Run(cfg, s, events).stats, nullifier)
    decreases |events|
  {
    hide Inv, Ideal, ValidServer, Step, PlainPoint;
    if events != [] {
      RunKeepsInv(cfg, s, events[..|events| - 1], nullifier);
      StepKeepsInv(cfg, Run(cfg, s, events[..|events| - 1]), events[|events| - 1], nullifier);
    }
  }

  /** A saved share came with one of the events. */
  lemma {:induction false} SavedSharesWereSent(cfg: Config, s: Server, events: seq<Event>)
    requires ValidServer(cfg, s) && s.stats == []
    ensures forall share | share in Run(cfg, s, events).stats :: exists e :: e in events && ShareOf(e.message) == share
    decreases |events|
  {
    hide Step, ValidServer;
    if events != [] {
      var earlier, last := events[..|events| - 1], events[|events| - 1];
      SavedSharesWereSent(cfg, s, earlier);
      StepSavesAtMostItsShare(cfg, Run(cfg, s, earlier), last);
      forall share | share in Run(cfg, s, events).stats
        ensures exists e :: e in events && ShareOf(e.message) == share
      {
        if share in Run(cfg, s, earlier).stats {
          var e :| e in earlier && ShareOf(e.message) == share;
          assert e in events;
        } else {
          assert share == ShareOf(last.message) && last in events;
        }
      }
    }
  }

  /** The different shares that were sent for an epoch under a nullifier. */
  function SentShares(events: seq<Event>, epoch: int, nullifier: nat): set<Share> {
    set e | e in events && e.message.epoch == epoch && NullifierOf(e) == nullifier :: ShareOf(e.message)
  }

  lemma {:induction false} DistinctSharesCount(shares: seq<Share>, all: set<Share>)
    requires NoRepeats(shares) && forall share | share in shares :: share in all
    ensures |shares| <= |all|
    decreases |shares|
  {
    if shares != [] {
      var last := shares[|shares| - 1];
      assert last in all;
      DistinctSharesCount(shares[..|shares| - 1], all - {last});
    }
  }

  /** A ban comes only to a fresh share beyond the limit, whatever the messages carry. */
  lemma BanIsBeyondTheLimit(cfg: Config, s: Server, event: Event)
    requires ValidServer(cfg, s) && WithinLimit(cfg, s.stats) && Step(cfg, s, event).1.Banned?
    ensures ShareOf(event.message) !in s.stats
    ensures |SharesFor(s.stats, event.message.epoch, NullifierOf(event))| == Limit(cfg.spamThreshold)
  {
    hide cfg.tree.Shape, HoldsSlots, cfg.tree.SetPath, BanConflicts, FirstLeaf, RecoverSecret, StoredRoot,
         IsZkProofValid, VerifyEpoch;
    SpamMeansLimitReached(s.stats, event.message.epoch, NullifierOf(event), cfg.spamThreshold);
  }

  /**
     Nobody is banned without exceeding the limit: when a run ends in a ban, more different
     shares than the limit were sent under one nullifier for one epoch, and if the messages of
     that nullifier carry the points inside their proofs, it is one of the banned secret.
   */
  lemma BannedOnlyBeyondTheLimit(cfg: Config, s: Server, events: seq<Event>)
    requires ValidServer(cfg, s) && s.stats == []
    requires events != [] && LastOutcome(cfg, s, events).Banned?
    ensures var last := events[|events| - 1];
            && |SentShares(events, last.message.epoch, NullifierOf(last))| > Limit(cfg.spamThreshold)
            && (Ideal(cfg) && PlainPoints(events, NullifierOf(last)) ==>
                  OnLine(cfg, LastOutcome(cfg, s, events).secret, ShareOf(last.message)))
  {
    hide Step, ValidServer, Ideal, OnLine, SharesFor, PlainPoint, WithinLimit;
    var earlier, last := events[..|events| - 1], events[|events| - 1];
    var before, own := Run(cfg, s, earlier), ShareOf(last.message);
    NoSharesKeepInv(cfg, NullifierOf(last));
    RunKeepsWithinLimit(cfg, s, earlier);
    BanIsBeyondTheLimit(cfg, before, last);
    SavedSharesWereSent(cfg, s, earlier);
    var saved := SharesFor(before.stats, own.epoch, own.nullifier);
    SavedSharesNeverRepeat(cfg, before.stats);
    SharesForAreSaved(before.stats, own.epoch, own.nullifier);
    forall share | share in saved + [own] ensures share in SentShares(events, own.epoch, own.nullifier) {
      if share in saved {
        var e :| e in earlier && ShareOf(e.message) == share;
        assert e in events;
      } else {
        assert last in events;
      }
    }
    DistinctSharesCount(saved + [own], SentShares(events, own.epoch, own.nullifier));
    if Ideal(cfg) && PlainPoints(events, NullifierOf(last)) {
      assert last in events;
      RunKeepsInv(cfg, s, earlier, NullifierOf(last));
      BanNamesTheSender(cfg, before, last);
    }
  }

  lemma SavedSharesNeverRepeat(cfg: Config, stats: seq<Share>)
    requires WithinLimit(cfg, stats)
    ensures NoRepeats(stats)
  {
  }

  // ----- what the stores say about each other -----

  function Broadcasts(published: seq<SyncMessage>): seq<Message> {
    if published == [] then []
    else
      Broadcasts(published[..|published| - 1]) +
      match published[|published| - 1]
      case Broadcast(m) => [m]
      case TreeUpdate => []
  }

  function TreeUpdates(published: seq<SyncMessage>): nat {
    if published == [] then 0
    else TreeUpdates(published[..|published| - 1]) + if published[|published| - 1].TreeUpdate? then 1 else 0
  }

  /**
     The stores agree: every stored message was broadcast once, in order, and has one share;
     every ban was announced once, and its leaf is empty and was recorded once.
   */
  ghost predicate Consistent(cfg: Config, s: Server) {
    && Broadcasts(s.published) == s.messages && |s.stats| == |s.messages|
    && TreeUpdates(s.published) == |s.banned|
    && (forall i | 0 <= i < |s.banned| ::
          && s.banned[i].leafIndex < |s.slots| && s.slots[s.banned[i].leafIndex].hash == cfg.tree.zeroValue
          && s.banned[i].idCommitment == cfg.rln.commitment(s.banned[i].secret))
    && forall i, j | 0 <= i < j < |s.banned| ::
         && s.banned[i].leafIndex != s.banned[j].leafIndex && s.banned[i].secret != s.banned[j].secret
         && s.banned[i].idCommitment != s.banned[j].idCommitment
  }

  lemma OneMorePublished(published: seq<SyncMessage>, e: SyncMessage)
    ensures Broadcasts(published + [e]) == Broadcasts(published) + if e.Broadcast? then [e.message] else []
    ensures TreeUpdates(published + [e]) == TreeUpdates(published) + if e.TreeUpdate? then 1 else 0
  {
    assert (published + [e])[..|published|] == published;
  }

  lemma BanKeepsConsistent(cfg: Config, s: Server, secret: nat)
    requires ValidServer(cfg, s) && Consistent(cfg, s)
    ensures Consistent(cfg, Ban(cfg, s, secret).0)
  {
    hide cfg.tree.Shape, HoldsSlots, cfg.tree.SetPath, FirstLeaf, Broadcasts, TreeUpdates;
    OneMorePublished(s.published, TreeUpdate);
  }

  lemma StepKeepsConsistent(cfg: Config, s: Server, event: Event)
    requires ValidServer(cfg, s) && Consistent(cfg, s)
    ensures Consistent(cfg, Step(cfg, s, event).0)
  {
    hide ValidServer, Ban, Broadcasts, TreeUpdates, VerifyEpoch, IsZkProofValid, IsSpam, StoredRoot, RecoverSecret;
    OneMorePublished(s.published, Broadcast(Persisted(event)));
    forall secret ensures Consistent(cfg, Ban(cfg, s, secret).0) {
      BanKeepsConsistent(cfg, s, secret);
    }
  }

  /** The stores agree after every run. */
  lemma {:induction false} RunKeepsConsistent(cfg: Config, s: Server, events: seq<Event>)
    requires ValidServer(cfg, s) && Consistent(cfg, s)
    ensures Consistent(cfg, Run(cfg, s, events))
    decreases |events|
  {
    hide ValidServer, Consistent, Step;
    if events != [] {
      RunKeepsConsistent(cfg, s, events[..|events| - 1]);
      StepKeepsConsistent(cfg, Run(cfg, s, events[..|events| - 1]), events[|events| - 1]);
    }
  }
}
