/** The message handler as the server runs it, over the stores it updates. */
module MessageHandler {
  import opened Prelude
  import opened MerkleTree
  import opened UserServices
  import opened Admission

  class MessageHandlerService {
    const config: Config
    const userService: UserService
    var requestStats: seq<Share>
    var messages: seq<Message>
    var pubSub: seq<SyncMessage>

    ghost predicate Valid()
      reads this, userService
    {
      config.rln.p > 0 && userService.config == config.tree && userService.Valid()
    }

    /** All stores the handler works on, as one value. */
    ghost function State(): Server
      reads this, userService
    {
      Server(requestStats, messages, userService.bannedUsers, userService.nodes, userService.leaves, pubSub)
    }

    constructor (config: Config, userService: UserService)
      requires config.rln.p > 0 && userService.config == config.tree && userService.Valid()
      ensures Valid() && this.config == config && this.userService == userService
      ensures State() == Server([], [], userService.bannedUsers, userService.nodes, userService.leaves, [])
    {
      this.config, this.userService := config, userService;
      requestStats, messages, pubSub := [], [], [];
    }

    method SaveMessage(message: RLNMessage)
      modifies this`requestStats
      ensures requestStats == old(requestStats) + [ShareOf(message)]
    {
      requestStats := requestStats + [Share(message.zkProof.internalNullifier, message.epoch, message.xShare,
                                            message.zkProof.yShare)];
    }

    method PersistMessage(message: RLNMessage, uuid: nat, timestamp: int) returns (m: Message)
      modifies this`messages
      ensures m == Message(uuid, message.epoch, message.chatType, message.content, timestamp, message.sender)
      ensures messages == old(messages) + [m]
    {
      m := Message(uuid, message.epoch, message.chatType, message.content, timestamp, message.sender);
      messages := messages + [m];
    }

    /** The shares of saved records and of the message are listed, and the first two interpolated. */
    method GetUserFromShares(saved: seq<Share>, message: RLNMessage) returns (user: Option<(nat, nat)>)
      requires config.rln.p > 0 && saved != []
      ensures match RecoverSecret(config, saved, ShareOf(message))
              case None => user == None
              case Some(secret) => user == Some((secret, config.rln.commitment(secret)))
    {
      var sharesX, sharesY := [], [];
      for i := 0 to |saved|
        invariant |sharesX| == |sharesY| == i
        invariant forall j | 0 <= j < i :: sharesX[j] == saved[j].x && sharesY[j] == saved[j].y
      {
        sharesX := sharesX + [saved[i].x];
        sharesY := sharesY + [saved[i].y];
      }
      sharesX := sharesX + [message.xShare];
      sharesY := sharesY + [message.zkProof.yShare];
      match PrimeField.ShamirRecovery(config.rln.p, sharesX[0], sharesX[1], sharesY[0], sharesY[1]) {
        case None => user := None;
        case Some(secret) => user := Some((secret, config.rln.commitment(secret)));
      }
    }

    /**
     Handles one message: the checks in their order, then either the ban of a spammer or the
     acceptance of the message.
     */
    method HandleChatMessage(event: Event) returns (outcome: Outcome)
      requires Valid()
      modifies this`requestStats, this`messages, this`pubSub
      modifies userService`nodes, userService`leaves, userService`history, userService`bannedUsers
      ensures Valid()
      ensures ValidServer(config, old(State()))
      ensures (State(), outcome) == Step(config, old(State()), event)
    {
      hide config.tree.Shape, HoldsSlots, MixedRuns.Reached, MixedRuns.Leaves, VerifyEpoch, IsZkProofValid,
           IsDuplicate, SharesFor, RecoverSecret, BanConflicts, config.tree.SetPath, config.tree.PathStored;
      var message := event.message;
      if !VerifyEpoch(message.epoch, event.now, config.allowedDelay) {
        return Rejected(EpochInvalid);
      }
      if IsDuplicate(requestStats, ShareOf(message)) {
        return Rejected(Duplicate);
      }
      var merkleRoot := userService.GetRoot();
      if merkleRoot.Err? {
        return Rejected(NoRoot);
      }
      if !IsZkProofValid(config, message.zkProof, merkleRoot.value) {
        return Rejected(ProofInvalid);
      }
      var nullifier := message.zkProof.internalNullifier;
      if IsSpam(requestStats, message.epoch, nullifier, config.spamThreshold) {
        var user := GetUserFromShares(SharesFor(requestStats, message.epoch, nullifier), message);
        if user.None? {
          return Rejected(RecoveryFailed);
        }
        var (secret, idCommitment) := user.value;
        var banned := userService.BanUser(idCommitment, secret);
        if banned.Err? {
          return Rejected(if banned.error == UserNotFound then SenderUnknown else Rejection.AlreadyBanned);
        }
        var updated := userService.UpdateUser(idCommitment, config.tree.zeroValue);
        pubSub := pubSub + [TreeUpdate];
        return Banned(secret);
      }
      var persisted := PersistMessage(message, event.uuid, event.timestamp);
      SaveMessage(message);
      pubSub := pubSub + [Broadcast(persisted)];
      return Accepted(persisted);
    }
  }
}
