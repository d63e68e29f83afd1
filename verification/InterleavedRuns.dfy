/**
 What interleaving changes about bans and about the accepted rate: a repeated share ends all
 bans of its user and epoch, a ban still needs more than the limit of sent messages, but
 copies count, and the rate bound grows with the handlers in flight.
 */
module InterleavedRuns {
  import opened Prelude
  import opened MerkleTree
  import opened PrimeField
  import opened UserServices
  import opened Admission
  import opened AdmissionRuns
  import opened Interleaving

  // ----- records are only appended -----

  lemma {:induction false} SharesForGrow(stats: seq<Share>, longer: seq<Share>, epoch: int, nullifier: nat)
    requires stats <= longer
    ensures SharesFor(stats, epoch, nullifier) <= SharesFor(longer, epoch, nullifier)
    decreases |longer|
  {
    if stats == longer {
    } else {
      SharesForGrow(stats, longer[..|longer| - 1], epoch, nullifier);
    }
  }

  lemma {:induction false} RunOnlyAppends(cfg: Config, s: Server, events: seq<Event>)
    requires ValidServer(cfg, s)
    ensures s.stats <= Run(cfg, s, events).stats
    decreases |events|
  {
    hide ValidServer, Step;
    if events != [] {
      RunOnlyAppends(cfg, s, events[..|events| - 1]);
      StepSavesAtMostItsShare(cfg, Run(cfg, s, events[..|events| - 1]), events[|events| - 1]);
    }
  }

  // ----- a repeated share -----

  /** The records of a user and epoch begin with one share twice. */
  ghost predicate HeadsTwice(stats: seq<Share>, share: Share, epoch: int, nullifier: nat) {
    [share, share] <= SharesFor(stats, epoch, nullifier)
  }

  /** Once a repeated share heads the records, no later message of that user and epoch gets anyone banned. */
  lemma RepeatedSharePreventsEveryLaterBan(cfg: Config, s: Server, events: seq<Event>, share: Share)
    requires ValidServer(cfg, s) && events != []
    requires var last := events[|events| - 1].message;
             HeadsTwice(s.stats, share, last.epoch, ShareOf(last).nullifier)
    ensures !LastOutcome(cfg, s, events).Banned?
  {
    hide ValidServer, Step, Run, SharesFor;
    var earlier, last := events[..|events| - 1], events[|events| - 1];
    RunOnlyAppends(cfg, s, earlier);
    SharesForGrow(s.stats, Run(cfg, s, earlier).stats, last.message.epoch, ShareOf(last.message).nullifier);
    RepeatedSharePreventsTheBan(cfg, Run(cfg, s, earlier), last, share);
  }

  predicate Concerns(h: Handler, epoch: int, nullifier: nat) {
    h.event.message.epoch == epoch && ShareOf(h.event.message).nullifier == nullifier
  }

  predicate Banning(h: Handler) {
    h.pc.RecordBan? || h.pc.ZeroLeaf?
  }

  /** No handler is on its way to ban the user for a message of the epoch. */
  ghost predicate NobodyBans(handlers: map<nat, Handler>, epoch: int, nullifier: nat) {
    forall id | id in handlers && Concerns(handlers[id], epoch, nullifier) :: !Banning(handlers[id])
  }

  lemma RepeatedShareEndsTheHandler(cfg: Config, s: Server, h: Handler, share: Share)
    requires ValidServer(cfg, s) && !Banning(h)
    requires HeadsTwice(s.stats, share, h.event.message.epoch, ShareOf(h.event.message).nullifier)
    ensures var next := Advance(cfg, s, h).1;
            next.Some? ==> !Banning(next.value)
  {
    hide ValidServer, SharesFor, StoredRoot, IsSpam, IsZkProofValid;
    if h.pc.ReadShares? {
      PositiveModulus(cfg, s);
      EqualAbscissasFail(cfg.rln.p, share.x, share.y, share.y);
    }
  }

  lemma PositiveModulus(cfg: Config, s: Server)
    requires ValidServer(cfg, s)
    ensures cfg.rln.p > 0
  {
  }

  lemma DoOnlyAppends(cfg: Config, k: nat, sys: System, action: Action)
    requires ValidServer(cfg, sys.server)
    ensures sys.server.stats <= Do(cfg, k, sys, action).server.stats
  {
    hide ValidServer, Advance, VerifyEpoch;
    if action.Resume? && action.id in sys.handlers {
      AdvanceEffect(cfg, sys.server, sys.handlers[action.id]);
    }
  }

  lemma DoKeepsNobodyBans(cfg: Config, k: nat, sys: System, action: Action, share: Share, epoch: int, nullifier: nat)
    requires ValidServer(cfg, sys.server)
    requires HeadsTwice(sys.server.stats, share, epoch, nullifier) && NobodyBans(sys.handlers, epoch, nullifier)
    ensures NobodyBans(Do(cfg, k, sys, action).handlers, epoch, nullifier)
  {
    hide ValidServer, Advance, VerifyEpoch, HeadsTwice;
    if action.Resume? && action.id in sys.handlers && Concerns(sys.handlers[action.id], epoch, nullifier) {
      RepeatedShareEndsTheHandler(cfg, sys.server, sys.handlers[action.id], share);
    }
    if action.Resume? && action.id in sys.handlers {
      AdvanceEffect(cfg, sys.server, sys.handlers[action.id]);
    }
  }

  /** The same over every interleaving: from then on, no handler of that user and epoch reaches a ban. */
  lemma {:induction false} RepeatedShareStopsEveryHandler(cfg: Config, k: nat, sys: System, actions: seq<Action>,
                                                          share: Share, epoch: int, nullifier: nat)
    requires ValidServer(cfg, sys.server)
    requires HeadsTwice(sys.server.stats, share, epoch, nullifier) && NobodyBans(sys.handlers, epoch, nullifier)
    ensures NobodyBans(DoAll(cfg, k, sys, actions).handlers, epoch, nullifier)
    decreases |actions|
  {
    hide ValidServer, Do, NobodyBans, SharesFor;
    if actions != [] {
      var next := Do(cfg, k, sys, actions[0]);
      DoKeepsNobodyBans(cfg, k, sys, actions[0], share, epoch, nullifier);
      DoOnlyAppends(cfg, k, sys, actions[0]);
      SharesForGrow(sys.server.stats, next.server.stats, epoch, nullifier);
      RepeatedShareStopsEveryHandler(cfg, k, next, actions[1..], share, epoch, nullifier);
    }
  }

  // ----- who can be banned -----

  /** How many messages of the nullifier were started for the epoch, copies counted. */
  function SentCount(actions: seq<Action>, epoch: int, nullifier: nat): nat {
    if actions == [] then 0
    else SentCount(actions[..|actions| - 1], epoch, nullifier) + StartCount(actions[|actions| - 1], epoch, nullifier)
  }

  predicate Sends(e: Event, epoch: int, nullifier: nat) {
    e.message.epoch == epoch && NullifierOf(e) == nullifier
  }

  function StartCount(action: Action, epoch: int, nullifier: nat): nat {
    if action.Start? && Sends(action.event, epoch, nullifier) then 1 else 0
  }

  function InFlight(handlers: map<nat, Handler>, epoch: int, nullifier: nat): set<nat> {
    set id | id in handlers && Sends(handlers[id].event, epoch, nullifier)
  }

  /** The messages of the nullifier that were started carry the points inside their proofs. */
  ghost predicate StartsPlain(actions: seq<Action>, nullifier: nat) {
    forall a | a in actions && a.Start? && NullifierOf(a.event) == nullifier :: PlainPoint(a.event.message)
  }

  /** The nullifier is one of the secret. */
  ghost predicate Owns(cfg: Config, secret: nat, nullifier: nat) {
    exists external :: nullifier == cfg.rln.nullifier(cfg.rln.slope(secret, external))
  }

  /** A handler in its banning phase found the limit used up. */
  ghost predicate HandlerOk(cfg: Config, stats: seq<Share>, h: Handler) {
    h.pc.ReadShares? || h.pc.RecordBan? ==>
      |SharesFor(stats, h.event.message.epoch, NullifierOf(h.event))| >= Limit(cfg.spamThreshold)
  }

  /** A message of the nullifier is backed once its proof is verified, and a ban on the way is of its line. */
  ghost predicate HandlerBacked(cfg: Config, h: Handler) {
    && PlainPoint(h.event.message)
    && (PastProof(h.pc) ==> Backed(cfg, ShareOf(h.event.message)))
    && (h.pc.RecordBan? ==> OnLine(cfg, h.pc.secret, ShareOf(h.event.message)))
  }

  ghost predicate AllBacked(cfg: Config, sys: System, nullifier: nat) {
    && (forall share | share in sys.server.stats && share.nullifier == nullifier :: Backed(cfg, share))
    && forall id | id in sys.handlers && NullifierOf(sys.handlers[id].event) == nullifier ::
         HandlerBacked(cfg, sys.handlers[id])
  }

  /** Saved shares and messages in flight together are no more than the started messages. */
  ghost predicate Counted(sys: System, actions: seq<Action>) {
    forall epoch, nullifier ::
      |SharesFor(sys.server.stats, epoch, nullifier)| + |InFlight(sys.handlers, epoch, nullifier)|
      <= SentCount(actions, epoch, nullifier)
  }

  /**
     More messages than the limit were started under the nullifier, which is the secret's if
     they carry proven points.
     */
  ghost predicate BanIsEarned(cfg: Config, secret: nat, actions: seq<Action>, epoch: int, nullifier: nat) {
    && SentCount(actions, epoch, nullifier) > Limit(cfg.spamThreshold)
    && (StartsPlain(actions, nullifier) ==> Owns(cfg, secret, nullifier))
  }

  ghost predicate SystemOk(cfg: Config, sys: System, actions: seq<Action>) {
    && (forall id | id in sys.handlers :: HandlerOk(cfg, sys.server.stats, sys.handlers[id]))
    && Counted(sys, actions)
    && (forall nullifier | StartsPlain(actions, nullifier) :: AllBacked(cfg, sys, nullifier))
    && forall record | record in sys.server.banned ::
         exists epoch, nullifier :: BanIsEarned(cfg, record.secret, actions, epoch, nullifier)
  }

  lemma BackedIsOnLine(cfg: Config, share: Share, secret: nat, own: Share)
    requires Ideal(cfg) && Backed(cfg, share) && OnLine(cfg, secret, own) && share.nullifier == own.nullifier
    ensures OnLine(cfg, secret, share)
  {
    hide Ideal, OnLine;
    var other :| OnLine(cfg, other, share);
    SameNullifierSameSecret(cfg, other, secret, share, own);
  }

  /** Whatever is recovered in the spam branch is the sender's secret, also when shares repeat. */
  lemma RecoveredSecretIsTheSenders(cfg: Config, stats: seq<Share>, own: Share)
    requires Ideal(cfg) && Backed(cfg, own)
    requires forall share | share in stats && share.nullifier == own.nullifier :: Backed(cfg, share)
    requires cfg.rln.p > 0 && SharesFor(stats, own.epoch, own.nullifier) != []
    ensures var secret := RecoverSecret(cfg, SharesFor(stats, own.epoch, own.nullifier), own);
            secret.Some? ==> OnLine(cfg, secret.value, own)
  {
    hide Ideal, ShamirRecovery, OnLine;
    var saved := SharesFor(stats, own.epoch, own.nullifier);
    var shares := saved + [own];
    SharesForAreSaved(stats, own.epoch, own.nullifier);
    var secret :| OnLine(cfg, secret, own);
    assert own in shares && saved[0] in saved;
    forall share | share in shares ensures OnLine(cfg, secret, share) && share.nullifier == own.nullifier {
      BackedIsOnLine(cfg, share, secret, own);
    }
    if shares[0].x == shares[1].x {
      EqualAbscissasFail(cfg.rln.p, shares[0].x, shares[0].y, shares[1].y);
    } else {
      TwoPointsOfALineRecover(cfg, secret, shares[0], shares[1]);
    }
  }

  lemma EqualAbscissasFail(p: nat, x: int, y1: int, y2: int)
    requires p > 0
    ensures ShamirRecovery(p, x, x, y1, y2) == None
  {
    QuotientIsUnique(0, 0, 0, p);
  }

  lemma AdvanceKeepsHandlerOk(cfg: Config, s: Server, h: Handler)
    requires ValidServer(cfg, s) && HandlerOk(cfg, s.stats, h)
    ensures var (server, next) := Advance(cfg, s, h);
            next.Some? ==> HandlerOk(cfg, server.stats, next.value)
  {
    hide ValidServer, StoredRoot, SharesFor, Limit, IsSpam, RecoverSecret, LeafZeroed, IsZkProofValid;
    SpamMeansLimitReached(s.stats, h.event.message.epoch, NullifierOf(h.event), cfg.spamThreshold);
  }

  /** One stretch keeps its handler's message, and what is saved of it, backed. */
  lemma AdvanceKeepsHandlerBacked(cfg: Config, s: Server, h: Handler)
    requires ValidServer(cfg, s) && Ideal(cfg) && HandlerBacked(cfg, h)
    requires forall share | share in s.stats && share.nullifier == NullifierOf(h.event) :: Backed(cfg, share)
    ensures var (server, next) := Advance(cfg, s, h);
            next.Some? ==> HandlerBacked(cfg, next.value)
  {
    hide ValidServer, Ideal, StoredRoot, OnLine, SharesFor, Limit, IsSpam, RecoverSecret, LeafZeroed, Backed,
         PlainPoint,
         IsZkProofValid;
    var m, share := h.event.message, ShareOf(h.event.message);
    match h.pc
    case VerifyProof(root) =>
      if IsZkProofValid(cfg, m.zkProof, root) {
        var w := VerifiedShareIsBacked(cfg, m, root);
        BackedBy(cfg, w.secret, share);
      }
    case ReadShares =>
      PositiveModulus(cfg, s);
      if SharesFor(s.stats, m.epoch, share.nullifier) != [] { RecoveredSecretIsTheSenders(cfg, s.stats, share); }
    case _ =>
  }

  lemma BackedBy(cfg: Config, secret: nat, share: Share)
    requires OnLine(cfg, secret, share)
    ensures Backed(cfg, share)
  {
  }

  /** The ban records after one stretch. */
  lemma AdvanceRecordsBan(cfg: Config, s: Server, h: Handler)
    requires ValidServer(cfg, s)
    ensures forall record | record in Advance(cfg, s, h).0.banned ::
              record in s.banned || (h.pc.RecordBan? && record.secret == h.pc.secret)
  {
    hide ValidServer, StoredRoot, SharesFor, IsSpam, RecoverSecret, BanConflicts, FirstLeaf;
    if h.pc.ZeroLeaf? && FirstLeaf(s.slots, h.pc.idCommitment).Some? {
      ZeroingKeepsStats(cfg, s, FirstLeaf(s.slots, h.pc.idCommitment).value);
    }
  }

  lemma HandlerOkStays(cfg: Config, stats: seq<Share>, longer: seq<Share>, h: Handler)
    requires stats <= longer && HandlerOk(cfg, stats, h)
    ensures HandlerOk(cfg, longer, h)
  {
    SharesForGrow(stats, longer, h.event.message.epoch, NullifierOf(h.event));
  }

  lemma SentCountGrows(actions: seq<Action>, action: Action, epoch: int, nullifier: nat)
    ensures SentCount(actions + [action], epoch, nullifier)
            == SentCount(actions, epoch, nullifier) + StartCount(action, epoch, nullifier)
  {
    assert (actions + [action])[..|actions|] == actions;
  }

  lemma BanStaysEarned(cfg: Config, secret: nat, actions: seq<Action>, action: Action, epoch: int, nullifier: nat)
    requires BanIsEarned(cfg, secret, actions, epoch, nullifier)
    ensures BanIsEarned(cfg, secret, actions + [action], epoch, nullifier)
  {
    hide PlainPoint;
    SentCountGrows(actions, action, epoch, nullifier);
    EarlierStartsPlain(actions, action, nullifier);
  }

  lemma EarlierStartsPlain(actions: seq<Action>, action: Action, nullifier: nat)
    ensures StartsPlain(actions + [action], nullifier) ==>
              && StartsPlain(actions, nullifier)
              && (action.Start? && NullifierOf(action.event) == nullifier ==> PlainPoint(action.event.message))
  {
    hide PlainPoint;
    assert action in actions + [action];
  }

  lemma InFlightAfter(handlers: map<nat, Handler>, id: nat, h: Handler, epoch: int, nullifier: nat)
    ensures InFlight(handlers[id := h], epoch, nullifier)
            == (InFlight(handlers, epoch, nullifier) - {id}) + (if Sends(h.event, epoch, nullifier) then {id} else {})
    ensures InFlight(handlers - {id}, epoch, nullifier) == InFlight(handlers, epoch, nullifier) - {id}
  {
  }

  lemma ResumeKeepsCounted(cfg: Config, k: nat, sys: System, id: nat, actions: seq<Action>)
    requires ValidServer(cfg, sys.server) && Counted(sys, actions) && id in sys.handlers
    ensures Counted(Do(cfg, k, sys, Resume(id)), actions + [Resume(id)])
  {
    hide ValidServer, Advance, SharesFor, SentCount;
    var h := sys.handlers[id];
    var (server, next) := Advance(cfg, sys.server, h);
    var after, share := Do(cfg, k, sys, Resume(id)), ShareOf(h.event.message);
    AdvanceEffect(cfg, sys.server, h);
    forall epoch, nullifier
      ensures |SharesFor(after.server.stats, epoch, nullifier)| + |InFlight(after.handlers, epoch, nullifier)|
              <= SentCount(actions + [Resume(id)], epoch, nullifier)
    {
      SentCountGrows(actions, Resume(id), epoch, nullifier);
      InFlightAfter(sys.handlers, id, if next.Some? then next.value else h, epoch, nullifier);
      SharesForAfterSave(sys.server.stats, share, epoch, nullifier);
      if h.pc.SaveShare? && Sends(h.event, epoch, nullifier) { assert id in InFlight(sys.handlers, epoch, nullifier); }
    }
  }

  lemma ResumeKeepsBacked(cfg: Config, k: nat, sys: System, id: nat, nullifier: nat)
    requires ValidServer(cfg, sys.server) && Ideal(cfg) && AllBacked(cfg, sys, nullifier) && id in sys.handlers
    ensures AllBacked(cfg, Do(cfg, k, sys, Resume(id)), nullifier)
  {
    hide ValidServer, Ideal, Advance, OnLine, PlainPoint, Backed;
    AdvanceEffect(cfg, sys.server, sys.handlers[id]);
    if NullifierOf(sys.handlers[id].event) == nullifier {
      AdvanceKeepsHandlerBacked(cfg, sys.server, sys.handlers[id]);
    }
  }

  lemma RecordedBanIsEarned(cfg: Config, sys: System, id: nat, actions: seq<Action>)
    requires SystemOk(cfg, sys, actions) && id in sys.handlers && sys.handlers[id].pc.RecordBan?
    ensures exists epoch, nullifier :: BanIsEarned(cfg, sys.handlers[id].pc.secret, actions, epoch, nullifier)
  {
    hide SharesFor, Limit, SentCount, Backed, PlainPoint, StartsPlain;
    var h := sys.handlers[id];
    var epoch, nullifier := h.event.message.epoch, NullifierOf(h.event);
    assert HandlerOk(cfg, sys.server.stats, h);
    assert id in InFlight(sys.handlers, epoch, nullifier);
    if StartsPlain(actions, nullifier) {
      assert AllBacked(cfg, sys, nullifier) && HandlerBacked(cfg, h);
      var external :| PointFor(cfg, h.pc.secret, external, ShareOf(h.event.message));
      assert nullifier == cfg.rln.nullifier(cfg.rln.slope(h.pc.secret, external));
    }
    assert BanIsEarned(cfg, h.pc.secret, actions, epoch, nullifier);
  }

  /** The bans after a step that were recorded before stay earned, and one more may be. */
  lemma BansStayEarned(cfg: Config, before: System, after: System, actions: seq<Action>, action: Action)
    requires SystemOk(cfg, before, actions)
    requires forall record | record in after.server.banned && record !in before.server.banned ::
               exists id :: id in before.handlers && before.handlers[id].pc.RecordBan?
                            && before.handlers[id].pc.secret == record.secret
    ensures forall record | record in after.server.banned ::
              exists epoch, nullifier :: BanIsEarned(cfg, record.secret, actions + [action], epoch, nullifier)
  {
    hide BanIsEarned, Counted, HandlerOk, AllBacked;
    forall record | record in after.server.banned
      ensures exists epoch, nullifier :: BanIsEarned(cfg, record.secret, actions + [action], epoch, nullifier)
    {
      if record !in before.server.banned {
        var id :| id in before.handlers && before.handlers[id].pc.RecordBan?
                  && before.handlers[id].pc.secret == record.secret;
        RecordedBanIsEarned(cfg, before, id, actions);
      }
      var epoch, nullifier :| BanIsEarned(cfg, record.secret, actions, epoch, nullifier);
      BanStaysEarned(cfg, record.secret, actions, action, epoch, nullifier);
    }
  }

  lemma ResumeKeepsSystemOk(cfg: Config, k: nat, sys: System, id: nat, actions: seq<Action>)
    requires ValidServer(cfg, sys.server) && Ideal(cfg) && SystemOk(cfg, sys, actions) && id in sys.handlers
    ensures SystemOk(cfg, Do(cfg, k, sys, Resume(id)), actions + [Resume(id)])
  {
    hide ValidServer, Ideal, Advance, HandlerOk, Counted, AllBacked, BanIsEarned, StartsPlain;
    var after := Do(cfg, k, sys, Resume(id));
    AdvanceEffect(cfg, sys.server, sys.handlers[id]);
    DoOnlyAppends(cfg, k, sys, Resume(id));
    AdvanceKeepsHandlerOk(cfg, sys.server, sys.handlers[id]);
    ResumeKeepsCounted(cfg, k, sys, id, actions);
    forall other | other in after.handlers ensures HandlerOk(cfg, after.server.stats, after.handlers[other]) {
      if other != id { HandlerOkStays(cfg, sys.server.stats, after.server.stats, sys.handlers[other]); }
    }
    forall nullifier | StartsPlain(actions + [Resume(id)], nullifier) ensures AllBacked(cfg, after, nullifier) {
      EarlierStartsPlain(actions, Resume(id), nullifier);
      ResumeKeepsBacked(cfg, k, sys, id, nullifier);
    }
    AdvanceRecordsBan(cfg, sys.server, sys.handlers[id]);
    BansStayEarned(cfg, sys, after, actions, Resume(id));
  }

  lemma StartKeepsCounted(cfg: Config, k: nat, sys: System, action: Action, actions: seq<Action>)
    requires ValidServer(cfg, sys.server) && Counted(sys, actions)
    requires action.Resume? ==> action.id !in sys.handlers
    ensures Counted(Do(cfg, k, sys, action), actions + [action])
  {
    hide ValidServer, SharesFor, SentCount, InFlight, VerifyEpoch;
    var after := Do(cfg, k, sys, action);
    forall epoch, nullifier
      ensures |SharesFor(after.server.stats, epoch, nullifier)| + |InFlight(after.handlers, epoch, nullifier)|
              <= SentCount(actions + [action], epoch, nullifier)
    {
      SentCountGrows(actions, action, epoch, nullifier);
      if action.Start? {
        InFlightAfter(sys.handlers, action.id, Handler(action.event, LookForDuplicate), epoch, nullifier);
      }
    }
  }

  lemma StartKeepsBacked(cfg: Config, k: nat, sys: System, action: Action, nullifier: nat)
    requires ValidServer(cfg, sys.server) && AllBacked(cfg, sys, nullifier)
    requires action.Resume? ==> action.id !in sys.handlers
    requires action.Start? && NullifierOf(action.event) == nullifier ==> PlainPoint(action.event.message)
    ensures AllBacked(cfg, Do(cfg, k, sys, action), nullifier)
  {
    hide ValidServer, OnLine, VerifyEpoch, Backed, PlainPoint;
  }

  lemma StartKeepsSystemOk(cfg: Config, k: nat, sys: System, action: Action, actions: seq<Action>)
    requires ValidServer(cfg, sys.server) && SystemOk(cfg, sys, actions)
    requires action.Resume? ==> action.id !in sys.handlers
    ensures SystemOk(cfg, Do(cfg, k, sys, action), actions + [action])
  {
    hide ValidServer, SharesFor, Limit, VerifyEpoch, BanIsEarned, StartsPlain, AllBacked, Counted;
    var after := Do(cfg, k, sys, action);
    StartKeepsCounted(cfg, k, sys, action, actions);
    forall nullifier | StartsPlain(actions + [action], nullifier) ensures AllBacked(cfg, after, nullifier) {
      EarlierStartsPlain(actions, action, nullifier);
      StartKeepsBacked(cfg, k, sys, action, nullifier);
    }
    BansStayEarned(cfg, sys, after, actions, action);
  }

  lemma {:induction false} DoAllKeepsSystemOk(cfg: Config, k: nat, sys: System, before: seq<Action>,
                                              actions: seq<Action>)
    requires ValidServer(cfg, sys.server) && Ideal(cfg) && SystemOk(cfg, sys, before)
    ensures SystemOk(cfg, DoAll(cfg, k, sys, actions), before + actions)
    decreases |actions|
  {
    hide ValidServer, Ideal, SystemOk, Do;
    if actions == [] {
      assert before + actions == before;
    } else {
      var a := actions[0];
      if a.Resume? && a.id in sys.handlers {
        ResumeKeepsSystemOk(cfg, k, sys, a.id, before);
      } else {
        StartKeepsSystemOk(cfg, k, sys, a, before);
      }
      DoAllKeepsSystemOk(cfg, k, Do(cfg, k, sys, a), before + [a], actions[1..]);
      assert before + [a] + actions[1..] == before + actions;
    }
  }

  lemma EmptySystemIsOk(cfg: Config, s: Server)
    requires s.stats == [] && s.banned == []
    ensures SystemOk(cfg, System(s, map[]), [])
  {
    forall epoch, nullifier ensures |SharesFor([], epoch, nullifier)| + |InFlight(map[], epoch, nullifier)| == 0 {
      assert InFlight(map[], epoch, nullifier) == {};
    }
  }

  /**
     Over every interleaving: for each ban, more messages than the limit were started under one
     nullifier for one epoch, where copies of one message count, and the nullifier is one of the
     banned secret if the messages of that nullifier carry the points inside their proofs.
   */
  lemma InterleavedBanIsBeyondTheLimit(cfg: Config, k: nat, s: Server, actions: seq<Action>, record: BannedUser)
    requires ValidServer(cfg, s) && Ideal(cfg) && s.stats == [] && s.banned == []
    requires record in DoAll(cfg, k, System(s, map[]), actions).server.banned
    ensures exists epoch, nullifier ::
              && SentCount(actions, epoch, nullifier) > Limit(cfg.spamThreshold)
              && (StartsPlain(actions, nullifier) ==> Owns(cfg, record.secret, nullifier))
  {
    hide ValidServer, Ideal, DoAll, SentCount, Limit, Counted, HandlerOk, AllBacked, StartsPlain, Owns;
    EmptySystemIsOk(cfg, s);
    DoAllKeepsSystemOk(cfg, k, System(s, map[]), [], actions);
    assert [] + actions == actions;
    var epoch, nullifier :| BanIsEarned(cfg, record.secret, actions, epoch, nullifier);
  }

  /** A handler of a message that is refused as spam, up to the ban record. */
  lemma CountedAsSpam(cfg: Config, k: nat, sys: System, i: nat, e: Event, secret: nat)
    requires ValidServer(cfg, sys.server) && i in sys.handlers && sys.handlers[i] == Handler(e, CountShares)
    requires IsSpam(sys.server.stats, e.message.epoch, ShareOf(e.message).nullifier, cfg.spamThreshold)
    requires RecoverSecret(cfg, SharesFor(sys.server.stats, e.message.epoch, ShareOf(e.message).nullifier),
                           ShareOf(e.message)) == Some(secret)
    requires var leaf := FirstLeaf(sys.server.slots, cfg.rln.commitment(secret));
             leaf.Some? && !BanConflicts(sys.server.banned, BannedUser(cfg.rln.commitment(secret), leaf.value, secret))
    ensures var banned := DoAll(cfg, k, sys, [Resume(i)] + [Resume(i)] + [Resume(i)]).server.banned;
            banned != [] && banned[|banned| - 1].secret == secret
  {
    hide ValidServer, DoAll, Do, SharesFor, RecoverSecret, FirstLeaf, BanConflicts;
    DoAllInThreeParts(cfg, k, sys, [Resume(i)], [Resume(i)], [Resume(i)]);
    Moves(cfg, k, sys, i, Handler(e, CountShares), Handler(e, ReadShares));
    var s1 := sys.(handlers := sys.handlers[i := Handler(e, ReadShares)]);
    Moves(cfg, k, s1, i, Handler(e, ReadShares), Handler(e, RecordBan(secret)));
    var s2 := s1.(handlers := s1.handlers[i := Handler(e, RecordBan(secret))]);
    RecordsTheBan(cfg, k, s2, i, e, secret);
  }

  lemma Moves(cfg: Config, k: nat, sys: System, i: nat, g: Handler, h: Handler)
    requires ValidServer(cfg, sys.server) && i in sys.handlers && sys.handlers[i] == g
    requires Advance(cfg, sys.server, g) == (sys.server, Some(h))
    ensures DoAll(cfg, k, sys, [Resume(i)]) == sys.(handlers := sys.handlers[i := h])
  {
    hide ValidServer, Advance, DoAll;
    OneAction(cfg, k, sys, Resume(i));
  }

  lemma RecordsTheBan(cfg: Config, k: nat, sys: System, i: nat, e: Event, secret: nat)
    requires ValidServer(cfg, sys.server) && i in sys.handlers && sys.handlers[i] == Handler(e, RecordBan(secret))
    requires var leaf := FirstLeaf(sys.server.slots, cfg.rln.commitment(secret));
             leaf.Some? && !BanConflicts(sys.server.banned, BannedUser(cfg.rln.commitment(secret), leaf.value, secret))
    ensures var banned := DoAll(cfg, k, sys, [Resume(i)]).server.banned;
            banned != [] && banned[|banned| - 1].secret == secret
  {
    hide ValidServer, DoAll, FirstLeaf, BanConflicts;
    OneAction(cfg, k, sys, Resume(i));
  }

  /** A fresh, proven message moves, alone, to the point before its shares are counted. */
  lemma Proven(cfg: Config, k: nat, sys: System, i: nat, e: Event, root: nat)
    requires ValidServer(cfg, sys.server) && StoredRoot(cfg, sys.server) == Some(root)
    requires i !in sys.handlers && |sys.handlers| < k
    requires VerifyEpoch(e.message.epoch, e.now, cfg.allowedDelay) && IsZkProofValid(cfg, e.message.zkProof, root)
    requires !IsDuplicate(sys.server.stats, ShareOf(e.message))
    ensures DoAll(cfg, k, sys, [Start(i, e), Resume(i)] + [Resume(i)] + [Resume(i)])
            == sys.(handlers := sys.handlers[i := Handler(e, CountShares)])
  {
    hide ValidServer, StoredRoot, VerifyEpoch, IsZkProofValid, IsDuplicate, DoAll, Do;
    DoAllInThreeParts(cfg, k, sys, [Start(i, e), Resume(i)], [Resume(i)], [Resume(i)]);
    DoAllOfTwo(cfg, k, sys, Start(i, e), Resume(i));
    StartAddsHandler(cfg, k, sys, i, e);
    MovesTo(cfg, k, sys, i, Handler(e, LookForDuplicate), Handler(e, ReadRoot));
    var s1 := sys.(handlers := sys.handlers[i := Handler(e, ReadRoot)]);
    Moves(cfg, k, s1, i, Handler(e, ReadRoot), Handler(e, VerifyProof(root)));
    var s2 := sys.(handlers := sys.handlers[i := Handler(e, VerifyProof(root))]);
    assert s1.(handlers := s1.handlers[i := Handler(e, VerifyProof(root))]) == s2;
    Moves(cfg, k, s2, i, Handler(e, VerifyProof(root)), Handler(e, CountShares));
    assert s2.(handlers := s2.handlers[i := Handler(e, CountShares)])
           == sys.(handlers := sys.handlers[i := Handler(e, CountShares)]);
  }

  /** Recovery from the first two of a supply that was saved whole. */
  lemma SupplyRevealsTheSecret(cfg: Config, s: Server, stats: seq<Share>, events: seq<Event>, epoch: int,
                               nullifier: nat, secret: nat)
    requires Supply(cfg, s, events, epoch, nullifier) && Ideal(cfg) && |events| >= 2 && stats == Shares(events)
    requires forall e | e in events :: OnLine(cfg, secret, ShareOf(e.message))
    ensures SharesFor(stats, epoch, nullifier) == stats != [] && cfg.rln.p > 0
    ensures RecoverSecret(cfg, stats, ShareOf(events[|events| - 1].message)) == Some(secret)
  {
    hide ValidServer, StoredRoot, VerifyEpoch, IsZkProofValid, OnLine, SharesFor;
    assert events[..|events|] == events;
    AllSharesMatch(cfg, s, events, epoch, nullifier, |events|);
    var first, second := ShareOf(events[0].message), ShareOf(events[1].message);
    assert events[0] in events && events[1] in events;
    DifferentPointsDifferInX(cfg, secret, first, second);
    TwoPointsOfALineRecover(cfg, secret, first, second);
  }

  /** The last message of a supply, handled twice at once: the second copy is counted after the first is saved. */
  lemma SecondCopyIsCounted(cfg: Config, k: nat, s: Server, sys: System, events: seq<Event>, epoch: int, nullifier: nat)
    returns (actions: seq<Action>)
    requires Supply(cfg, s, events, epoch, nullifier) && ValidServer(cfg, sys.server) && k >= 2
    requires |events| == Limit(cfg.spamThreshold) && Saved(s, sys.server, events, |events| - 1) && sys.handlers == map[]
    requires |events| >= 2
    ensures StartsOnly(actions, events)
    ensures var r := DoAll(cfg, k, sys, actions);
            && Saved(s, r.server, events, |events|)
            && r.handlers == map[|events| := Handler(events[|events| - 1], CountShares)]
  {
    hide ValidServer, StoredRoot, VerifyEpoch, IsZkProofValid, DoAll, Do, Limit;
    var n := |events| - 1;
    var e := events[n];
    assert e in events && StoredRoot(cfg, sys.server).Some? && StoredRoot(cfg, sys.server) == StoredRoot(cfg, s) by {
      SameTreeSameRoot(cfg, s, sys.server);
    }
    var a := Enter(cfg, k, s, sys, events, epoch, nullifier, n, n);
    var r1 := DoAll(cfg, k, sys, a);
    var b := [Start(n + 1, e), Resume(n + 1)] + [Resume(n + 1)] + [Resume(n + 1)];
    Proven(cfg, k, r1, n + 1, e, StoredRoot(cfg, s).value);
    var r2 := DoAll(cfg, k, r1, b);
    var c := Leave(cfg, k, s, r2, events, n);
    actions := a + b + c;
    DoAllInThreeParts(cfg, k, sys, a, b, c);
    assert map[n := Handler(e, Persist)][n + 1 := Handler(e, CountShares)] - {n}
           == map[n + 1 := Handler(e, CountShares)];
  }

  /**
     The other half: for every limit of at least two, a user with just that many different
     messages in one epoch, so that no message is beyond the limit, is banned in some
     interleaving of two handlers that handles the last message twice at once.
   */
  lemma CopiesBanWithinTheLimit(cfg: Config, k: nat, s: Server, events: seq<Event>, epoch: int, nullifier: nat,
                                secret: nat)
    returns (actions: seq<Action>)
    requires Supply(cfg, s, events, epoch, nullifier) && ValidServer(cfg, s) && Ideal(cfg) && k >= 2
    requires |events| == Limit(cfg.spamThreshold) >= 2 && s.stats == [] && s.banned == []
    requires forall e | e in events :: OnLine(cfg, secret, ShareOf(e.message))
    requires FirstLeaf(s.slots, cfg.rln.commitment(secret)).Some?
    ensures StartsOnly(actions, events)
    ensures var banned := DoAll(cfg, k, System(s, map[]), actions).server.banned;
            banned != [] && banned[|banned| - 1].secret == secret
  {
    hide Supply, ValidServer, Ideal, OnLine, DoAll, Do, FirstLeaf, SharesFor, RecoverSecret, Limit;
    var n := |events| - 1;
    var last := events[n];
    var a := OneAfterTheOther(cfg, k, s, events, epoch, nullifier, n);
    var r1 := DoAll(cfg, k, System(s, map[]), a);
    var b := SecondCopyIsCounted(cfg, k, s, r1, events, epoch, nullifier);
    var r2 := DoAll(cfg, k, r1, b);
    assert events[..|events|] == events;
    SupplyRevealsTheSecret(cfg, s, r2.server.stats, events, epoch, nullifier, secret);
    SupplyConcerns(cfg, s, events, epoch, nullifier, last);
    SpamMeansLimitReached(r2.server.stats, epoch, nullifier, cfg.spamThreshold);
    var c := [Resume(n + 1)] + [Resume(n + 1)] + [Resume(n + 1)];
    CountedAsSpam(cfg, k, r2, n + 1, last, secret);
    actions := a + b + c;
    DoAllInThreeParts(cfg, k, System(s, map[]), a, b, c);
  }

  lemma SupplyConcerns(cfg: Config, s: Server, events: seq<Event>, epoch: int, nullifier: nat, e: Event)
    requires Supply(cfg, s, events, epoch, nullifier) && e in events
    ensures e.message.epoch == epoch && ShareOf(e.message).nullifier == nullifier
  {
  }
}
