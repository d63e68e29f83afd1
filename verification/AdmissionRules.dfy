/**
 What the admission rules come to for a sound and complete proof system: whose messages and
 requests pass, and under which nullifier they are counted.
 */
module AdmissionRules {
  import opened Prelude
  import opened MerkleTree
  import opened PrimeField
  import opened UserServices
  import opened Admission
  import opened AdmissionRuns

  /** Whatever a witness opens can be verified. */
  ghost predicate Complete(cfg: Config) {
    forall proof, w :: Opens(cfg, proof, w) ==> cfg.rln.verifySnark(proof)
  }

  /** The owner of the secret made the proof. */
  ghost predicate OpenedBy(cfg: Config, proof: Proof, secret: nat) {
    exists w :: Opens(cfg, proof, w) && w.secret == secret
  }

  /** The proof is of a member under the root, and its external nullifier is that of its epoch and identifier. */
  ghost predicate ProvesMember(cfg: Config, proof: Proof, root: nat) {
    && (exists secret :: OpenedBy(cfg, proof, secret))
    && proof.merkleRoot == root
    && proof.externalNullifier == cfg.rln.genNullifier(proof.epoch, proof.rlnIdentifier)
  }

  /** The epoch is less than the allowed delay away from the clock, rounded down to ten seconds. */
  predicate Timely(cfg: Config, epoch: int, now: int) {
    now - now % 10000 - 1000 * cfg.allowedDelay < epoch < now - now % 10000 + 1000 * cfg.allowedDelay
  }

  /** The clock is rounded down to ten seconds. */
  lemma RoundingIsToTenSeconds(now: int)
    ensures RoundToEpoch(now) == now - now % 10000
    ensures RoundToEpoch(now) % 10000 == 0 && 0 <= now - RoundToEpoch(now) < 10000
  {
  }

  lemma TimelyIsTheEpochCheck(cfg: Config, epoch: int, now: int)
    ensures Timely(cfg, epoch, now) <==> VerifyEpoch(epoch, now, cfg.allowedDelay)
  {
    hide VerifyEpoch, RoundToEpoch;
    AcceptedEpochWindow(epoch, now, cfg.allowedDelay);
    RoundingIsToTenSeconds(now);
  }

  /** A proof passes exactly when it is one of a member, for the epoch and identifier it names. */
  lemma ValidProofsAreOfMembers(cfg: Config, proof: Proof, root: nat)
    requires Ideal(cfg) && Complete(cfg)
    ensures IsZkProofValid(cfg, proof, root) <==> ProvesMember(cfg, proof, root)
  {
    hide IsPrime;
    if IsZkProofValid(cfg, proof, root) {
      var w :| Opens(cfg, proof, w);
      assert OpenedBy(cfg, proof, w.secret);
    }
  }

  /** No proof has two owners. */
  lemma OwnerIsUnique(cfg: Config, proof: Proof, a: nat, b: nat)
    requires Ideal(cfg) && OpenedBy(cfg, proof, a) && OpenedBy(cfg, proof, b)
    ensures a == b
  {
    hide IsPrime;
    SameNullifierSameLine(cfg, a, b, proof.externalNullifier, proof.externalNullifier);
  }

  /** The nullifier of a valid proof is that of its owner for the epoch and identifier it names. */
  lemma NullifierIsTheOwners(cfg: Config, proof: Proof, root: nat, secret: nat)
    requires IsZkProofValid(cfg, proof, root) && OpenedBy(cfg, proof, secret)
    ensures proof.internalNullifier
            == cfg.rln.nullifier(cfg.rln.slope(secret, cfg.rln.genNullifier(proof.epoch, proof.rlnIdentifier)))
  {
  }

  /** Timely, not seen before, proved by a member under the root, and within the sender's limit. */
  ghost predicate Passes(cfg: Config, stats: seq<Share>, root: Option<nat>, proof: Proof, epoch: int, xShare: nat,
                         now: int)
  {
    && Timely(cfg, epoch, now)
    && Share(proof.internalNullifier, epoch, xShare, proof.yShare) !in stats
    && root.Some? && ProvesMember(cfg, proof, root.value)
    && WithinOwnLimit(cfg, stats, epoch, proof.internalNullifier)
  }

  /** There is no record of the nullifier and epoch yet, or fewer than the threshold. */
  predicate WithinOwnLimit(cfg: Config, stats: seq<Share>, epoch: int, nullifier: nat) {
    var count := |SharesFor(stats, epoch, nullifier)|;
    count == 0 || count < cfg.spamThreshold
  }

  // ----- messages -----

  ghost predicate PassesRules(cfg: Config, s: Server, event: Event)
    requires ValidServer(cfg, s)
  {
    var m := event.message;
    Passes(cfg, s.stats, StoredRoot(cfg, s), m.zkProof, m.epoch, m.xShare, event.now)
  }

  /** The server accepts a message exactly when it passes the rules, and then stores and announces just that message. */
  lemma AcceptedExactlyWhenRulesPass(cfg: Config, s: Server, event: Event)
    requires ValidServer(cfg, s) && Ideal(cfg) && Complete(cfg)
    ensures
      var (now, outcome) := Step(cfg, s, event);
      var m := event.message;
      && (outcome.Accepted? <==> PassesRules(cfg, s, event))
      && (outcome.Accepted? ==>
            var stored := Message(event.uuid, m.epoch, m.chatType, m.content, event.timestamp, m.sender);
            && outcome.message == stored
            && now == s.(stats := s.stats + [Share(m.zkProof.internalNullifier, m.epoch, m.xShare, m.zkProof.yShare)],
                         messages := s.messages + [stored],
                         published := s.published + [Broadcast(stored)]))
      && (outcome.Rejected? ==> now == s)
  {
    hide Ideal, Complete, cfg.tree.Shape, HoldsSlots, VerifyEpoch, IsZkProofValid, ProvesMember, Timely, SharesFor,
         RecoverSecret, cfg.tree.SetPath, FirstLeaf, BanConflicts;
    TimelyIsTheEpochCheck(cfg, event.message.epoch, event.now);
    if s.slots != [] { ValidProofsAreOfMembers(cfg, event.message.zkProof, StoredRoot(cfg, s).value); }
  }

  /** Each refusal, exactly: the first of the rules, in this order, that the message violates. */
  lemma RefusedExactlyForTheFirstRule(cfg: Config, s: Server, event: Event)
    requires ValidServer(cfg, s) && Ideal(cfg) && Complete(cfg)
    ensures
      var outcome, m, proof := Step(cfg, s, event).1, event.message, event.message.zkProof;
      var timely := Timely(cfg, m.epoch, event.now);
      var isNew := Share(proof.internalNullifier, m.epoch, m.xShare, proof.yShare) !in s.stats;
      var shares := SharesFor(s.stats, m.epoch, proof.internalNullifier);
      && (outcome == Rejected(EpochInvalid) <==> !timely)
      && (outcome == Rejected(Duplicate) <==> timely && !isNew)
      && (outcome == Rejected(NoRoot) <==> timely && isNew && s.slots == [])
      && (outcome == Rejected(ProofInvalid) <==>
            timely && isNew && s.slots != [] && !ProvesMember(cfg, proof, StoredRoot(cfg, s).value))
      && (outcome == Rejected(RecoveryFailed) ==> |shares| >= 1 && |shares| >= cfg.spamThreshold)
  {
    hide Ideal, Complete, cfg.tree.Shape, HoldsSlots, VerifyEpoch, IsZkProofValid, ProvesMember, Timely, SharesFor,
         RecoverSecret, cfg.tree.SetPath, FirstLeaf, BanConflicts;
    TimelyIsTheEpochCheck(cfg, event.message.epoch, event.now);
    if s.slots != [] { ValidProofsAreOfMembers(cfg, event.message.zkProof, StoredRoot(cfg, s).value); }
  }

  /** A recovered secret is banned exactly when its commitment is a leaf and nothing about the ban is recorded yet. */
  lemma BannedExactlyWhenNew(cfg: Config, s: Server, secret: nat)
    requires ValidServer(cfg, s)
    ensures
      var v, leaf := cfg.rln.commitment(secret), FirstLeaf(s.slots, cfg.rln.commitment(secret));
      && (Ban(cfg, s, secret).1 == Banned(secret) <==>
            && (exists slot :: slot in s.slots && slot.hash == v)
            && forall r | r in s.banned :: r.idCommitment != v && r.leafIndex != leaf.value && r.secret != secret)
      && (Ban(cfg, s, secret).1 == Banned(secret) ==>
            && Ban(cfg, s, secret).0.banned == s.banned + [BannedUser(v, leaf.value, secret)]
            && Ban(cfg, s, secret).0.slots == s.slots[leaf.value := s.slots[leaf.value].(hash := cfg.tree.zeroValue)]
            && Ban(cfg, s, secret).0.published == s.published + [TreeUpdate])
      && (Ban(cfg, s, secret).1 != Banned(secret) ==> Ban(cfg, s, secret).0 == s)
  {
    hide cfg.tree.Shape, HoldsSlots, cfg.tree.SetPath;
  }

  /**
     Whatever the server accepts or bans on was proved by the owner of one secret, under that
     owner's nullifier for the epoch and identifier inside the proof.
   */
  lemma AdmittedHasAnOwner(cfg: Config, s: Server, event: Event) returns (w: Witness)
    requires ValidServer(cfg, s) && Ideal(cfg) && (Step(cfg, s, event).1.Accepted? || Step(cfg, s, event).1.Banned?)
    ensures s.slots != [] && Opens(cfg, event.message.zkProof, w)
    ensures
      var proof := event.message.zkProof;
      && proof.internalNullifier
         == cfg.rln.nullifier(cfg.rln.slope(w.secret, cfg.rln.genNullifier(proof.epoch, proof.rlnIdentifier)))
      && cfg.tree.Provable(StoredRoot(cfg, s).value, cfg.rln.commitment(w.secret), w.leafIndex)
      && forall secret | OpenedBy(cfg, proof, secret) :: secret == w.secret
  {
    hide IsPrime, cfg.tree.Shape, HoldsSlots, VerifyEpoch, IsSpam, SharesFor, RecoverSecret, Ban;
    var proof := event.message.zkProof;
    w :| Opens(cfg, proof, w);
    assert OpenedBy(cfg, proof, w.secret);
    NullifierIsTheOwners(cfg, proof, StoredRoot(cfg, s).value, w.secret);
    forall secret | OpenedBy(cfg, proof, secret) ensures secret == w.secret {
      OwnerIsUnique(cfg, proof, secret, w.secret);
    }
  }
}
