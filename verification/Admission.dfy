/**
 The admission of chat messages: the epoch, duplicate, proof and spam checks, and the
 recovery of a spammer's secret from two shares. `Step` is the handler as one atomic step
 over the server's stores.
 */
module Admission {
  import opened Prelude
  import opened MerkleTree
  import opened PrimeField
  import opened UserServices

  const MILLISECONDS_PER_EPOCH := 10 * 1000

  /** A rate-limiting proof, with the public signals of its SNARK. */
  datatype Proof = Proof(
    merkleRoot: nat,
    internalNullifier: nat,
    yShare: nat,
    signalHash: nat,
    externalNullifier: nat,
    epoch: int,
    rlnIdentifier: nat)

  datatype RLNMessage = RLNMessage(
    zkProof: Proof,
    xShare: nat,
    epoch: int,
    chatType: string,
    content: string,
    sender: string)

  /** A saved share record. */
  datatype Share = Share(nullifier: nat, epoch: int, x: nat, y: nat)

  datatype Message = Message(uuid: nat, epoch: int, chatType: string, content: string, timestamp: int, sender: string)

  datatype SyncMessage = TreeUpdate | Broadcast(message: Message)

  /** The hash functions of the protocol and the SNARK verifier, as parameters. */
  datatype Rln = Rln(
    p: nat,
    genNullifier: (int, nat) -> nat,
    slope: (nat, nat) -> nat,
    nullifier: nat -> nat,
    commitment: nat -> nat,
    verifySnark: Proof -> bool)

  datatype Config = Config(rln: Rln, tree: TreeConfig, rlnIdentifier: nat, spamThreshold: int, allowedDelay: int)

  datatype Rejection =
    | EpochInvalid
    | Duplicate
    | NoRoot
    | ProofInvalid
    | RecoveryFailed
    | SenderUnknown
    | AlreadyBanned

  /** What the handler did with a message: accepted it, threw, or banned a recovered secret and threw. */
  datatype Outcome = Accepted(message: Message) | Rejected(reason: Rejection) | Banned(secret: nat)

  datatype Server = Server(
    stats: seq<Share>,
    messages: seq<Message>,
    banned: seq<BannedUser>,
    nodes: Nodes,
    slots: seq<Slot>,
    published: seq<SyncMessage>)

  /** A message as it arrives, with the readings of clock and generator that its handling takes. */
  datatype Event = Event(message: RLNMessage, now: int, timestamp: int, uuid: nat)

  function ShareOf(message: RLNMessage): Share {
    Share(message.zkProof.internalNullifier, message.epoch, message.xShare, message.zkProof.yShare)
  }

  // ----- epoch arithmetic -----

  /** A clock reading in milliseconds, rounded down to an epoch; client and server use the same rounding. */
  function RoundToEpoch(now: int): int {
    now / MILLISECONDS_PER_EPOCH * MILLISECONDS_PER_EPOCH
  }

  function Abs(z: int): nat {
    if z < 0 then -z else z
  }

  predicate VerifyEpoch(epoch: int, now: int, allowedDelay: int) {
    var differenceInSeconds := Abs(RoundToEpoch(now) - epoch) as real / 1000.0;
    !(differenceInSeconds >= allowedDelay as real)
  }

  /** The epochs a server accepts form an open window around its own. */
  lemma AcceptedEpochWindow(epoch: int, now: int, allowedDelay: int)
    ensures VerifyEpoch(epoch, now, allowedDelay) <==>
            RoundToEpoch(now) - 1000 * allowedDelay < epoch < RoundToEpoch(now) + 1000 * allowedDelay
  {
    var d := Abs(RoundToEpoch(now) - epoch);
    assert d as real / 1000.0 * 1000.0 == d as real;
    if d < 1000 * allowedDelay {
      assert d as real < 1000.0 * (allowedDelay as real);
    } else {
      assert d as real >= 1000.0 * (allowedDelay as real);
    }
  }

  // ----- share records -----

  /** The saved shares of a user in an epoch, in the order they were saved. */
  function SharesFor(stats: seq<Share>, epoch: int, nullifier: nat): seq<Share> {
    if stats == [] then []
    else
      var last := stats[|stats| - 1];
      SharesFor(stats[..|stats| - 1], epoch, nullifier)
      + (if last.epoch == epoch && last.nullifier == nullifier then [last] else [])
  }

  predicate IsDuplicate(stats: seq<Share>, share: Share) {
    share in stats
  }

  /** Counting groups of no record yields no count at all, and that is not spam whatever the threshold. */
  predicate IsSpam(stats: seq<Share>, epoch: int, nullifier: nat, threshold: int) {
    var count := |SharesFor(stats, epoch, nullifier)|;
    count > 0 && count >= threshold
  }

  /** The number of shares per user and epoch that the spam check lets in. */
  function Limit(threshold: int): nat {
    if threshold < 1 then 1 else threshold
  }

  lemma SpamMeansLimitReached(stats: seq<Share>, epoch: int, nullifier: nat, threshold: int)
    ensures IsSpam(stats, epoch, nullifier, threshold) <==> |SharesFor(stats, epoch, nullifier)| >= Limit(threshold)
  {
  }

  // ----- proofs and recovery -----

  predicate IsZkProofValid(cfg: Config, proof: Proof, root: nat) {
    && proof.merkleRoot == root
    && cfg.rln.genNullifier(proof.epoch, proof.rlnIdentifier) == proof.externalNullifier
    && cfg.rln.verifySnark(proof)
  }

  /** Interpolates the first two of the saved shares followed by the message's own. */
  function RecoverSecret(cfg: Config, saved: seq<Share>, own: Share): Option<nat>
    requires saved != [] && cfg.rln.p > 0
  {
    var shares := saved + [own];
    ShamirRecovery(cfg.rln.p, shares[0].x, shares[1].x, shares[0].y, shares[1].y)
  }

  // ----- the handler -----

  ghost predicate ValidServer(cfg: Config, s: Server) {
    cfg.rln.p > 0 && cfg.tree.Shape(s.nodes, |s.slots|) && HoldsSlots(s.nodes, s.slots)
  }

  ghost function StoredRoot(cfg: Config, s: Server): Option<nat>
    requires ValidServer(cfg, s)
  {
    if s.slots == [] then None
    else
      cfg.tree.RootIsStored(s.nodes, |s.slots|);
      Some(s.nodes[Key(cfg.tree.levels, 0)].hash)
  }

  /** Leaf i is zeroed and its path recomputed. */
  ghost function LeafZeroed(cfg: Config, s: Server, i: nat): (r: Server)
    requires ValidServer(cfg, s) && i < |s.slots|
    ensures ValidServer(cfg, r)
  {
    cfg.tree.ShapeStoresPaths(s.nodes, |s.slots|, i);
    cfg.tree.SetPathKeepsShape(s.nodes, |s.slots|, i, cfg.tree.zeroValue);
    cfg.tree.SetPathHoldsSlots(s.nodes, i, cfg.tree.zeroValue, s.slots);
    s.(nodes := cfg.tree.SetPath(s.nodes, i, cfg.tree.zeroValue, cfg.tree.levels),
       slots := s.slots[i := s.slots[i].(hash := cfg.tree.zeroValue)])
  }

  /** The ban of a recovered secret: a record that repeats none, the zeroed leaf, and an event. */
  ghost function Ban(cfg: Config, s: Server, secret: nat): (r: (Server, Outcome))
    requires ValidServer(cfg, s)
    ensures ValidServer(cfg, r.0)
  {
    var idCommitment := cfg.rln.commitment(secret);
    match FirstLeaf(s.slots, idCommitment)
    case None => (s, Rejected(SenderUnknown))
    case Some(i) =>
      var record := BannedUser(idCommitment, i, secret);
      if BanConflicts(s.banned, record) then (s, Rejected(Rejection.AlreadyBanned))
      else
        (LeafZeroed(cfg, s, i).(banned := s.banned + [record], published := s.published + [TreeUpdate]), Banned(secret))
  }

  function Persisted(event: Event): Message {
    var m := event.message;
    Message(event.uuid, m.epoch, m.chatType, m.content, event.timestamp, m.sender)
  }

  /** The whole handling of one message, as one step. */
  ghost function Step(cfg: Config, s: Server, event: Event): (r: (Server, Outcome))
    requires ValidServer(cfg, s)
    ensures ValidServer(cfg, r.0)
  {
    var m := event.message;
    var share := ShareOf(m);
    if !VerifyEpoch(m.epoch, event.now, cfg.allowedDelay) then (s, Rejected(EpochInvalid))
    else if IsDuplicate(s.stats, share) then (s, Rejected(Duplicate))
    else
      match StoredRoot(cfg, s)
      case None => (s, Rejected(NoRoot))
      case Some(root) =>
        if !IsZkProofValid(cfg, m.zkProof, root) then (s, Rejected(ProofInvalid))
        else if IsSpam(s.stats, m.epoch, share.nullifier, cfg.spamThreshold) then
          match RecoverSecret(cfg, SharesFor(s.stats, m.epoch, share.nullifier), share)
          case None => (s, Rejected(RecoveryFailed))
          case Some(secret) => Ban(cfg, s, secret)
        else
          (s.(stats := s.stats + [share],
              messages := s.messages + [Persisted(event)],
              published := s.published + [Broadcast(Persisted(event))]),
           Accepted(Persisted(event)))
  }
}
