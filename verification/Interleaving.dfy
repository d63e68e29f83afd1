/**
 The message handler split at its awaits: any number of handlers, up to K, are in flight and
 take their steps in any order. The checks read stores that other handlers change before
 the accepted message is saved.
 */
module Interleaving {
  import opened Prelude
  import opened MerkleTree
  import opened UserServices
  import opened Admission
  import opened AdmissionRuns

  /** The next thing a handler does when it resumes. */
  datatype Pc =
    | LookForDuplicate
    | ReadRoot
    | VerifyProof(root: nat)
    | CountShares
    | ReadShares
    | RecordBan(secret: nat)
    | ZeroLeaf(idCommitment: nat)
    | Persist
    | SaveShare

  datatype Handler = Handler(event: Event, pc: Pc)

  datatype System = System(server: Server, handlers: map<nat, Handler>)

  datatype Action = Start(id: nat, event: Event) | Resume(id: nat)

  function StepsLeft(pc: Pc): nat {
    match pc
    case LookForDuplicate => 7
    case ReadRoot => 6
    case VerifyProof(_) => 5
    case CountShares => 4
    case ReadShares => 3
    case RecordBan(_) => 2
    case ZeroLeaf(_) => 1
    case Persist => 2
    case SaveShare => 1
  }

  /** The proof of the message was found valid. */
  predicate PastProof(pc: Pc) {
    !pc.LookForDuplicate? && !pc.ReadRoot? && !pc.VerifyProof?
  }

  /** One stretch of a handler, from one await to the next; None when it returned or threw. */
  ghost function Advance(cfg: Config, s: Server, h: Handler): (r: (Server, Option<Handler>))
    requires ValidServer(cfg, s)
    ensures ValidServer(cfg, r.0)
    ensures r.1.Some? ==> r.1.value.event == h.event && StepsLeft(r.1.value.pc) < StepsLeft(h.pc)
  {
    var m, share := h.event.message, ShareOf(h.event.message);
    match h.pc
    case LookForDuplicate =>
      if IsDuplicate(s.stats, share) then (s, None) else (s, Some(h.(pc := ReadRoot)))
    case ReadRoot =>
      (match StoredRoot(cfg, s) case None => (s, None) case Some(root) => (s, Some(h.(pc := VerifyProof(root)))))
    case VerifyProof(root) =>
      if IsZkProofValid(cfg, m.zkProof, root) then (s, Some(h.(pc := CountShares))) else (s, None)
    case CountShares =>
      if IsSpam(s.stats, m.epoch, share.nullifier, cfg.spamThreshold) then (s, Some(h.(pc := ReadShares)))
      else (s, Some(h.(pc := Persist)))
    case ReadShares =>
      var saved := SharesFor(s.stats, m.epoch, share.nullifier);
      if saved == [] then (s, None)
      else
        (match RecoverSecret(cfg, saved, share)
         case None => (s, None)
         case Some(secret) => (s, Some(h.(pc := RecordBan(secret)))))
    case RecordBan(secret) =>
      var idCommitment := cfg.rln.commitment(secret);
      (match FirstLeaf(s.slots, idCommitment)
       case None => (s, None)
       case Some(i) =>
         var record := BannedUser(idCommitment, i, secret);
         if BanConflicts(s.banned, record) then (s, None)
         else (s.(banned := s.banned + [record]), Some(h.(pc := ZeroLeaf(idCommitment)))))
    case ZeroLeaf(idCommitment) =>
      (match FirstLeaf(s.slots, idCommitment)
       case None => (s, None)
       case Some(i) =>
         (LeafZeroed(cfg, s, i).(published := s.published + [TreeUpdate]), None))
    case Persist =>
      (s.(messages := s.messages + [Persisted(h.event)]), Some(h.(pc := SaveShare)))
    case SaveShare =>
      (s.(stats := s.stats + [share], published := s.published + [Broadcast(Persisted(h.event))]), None)
  }

  /** Starting checks the epoch before the first await. An action that is not enabled does nothing. */
  ghost function Do(cfg: Config, k: nat, sys: System, action: Action): (r: System)
    requires ValidServer(cfg, sys.server)
    ensures ValidServer(cfg, r.server)
  {
    match action
    case Start(id, event) =>
      if id in sys.handlers || |sys.handlers| >= k then sys
      else if !VerifyEpoch(event.message.epoch, event.now, cfg.allowedDelay) then sys
      else sys.(handlers := sys.handlers[id := Handler(event, LookForDuplicate)])
    case Resume(id) =>
      if id !in sys.handlers then sys
      else
        var (server, next) := Advance(cfg, sys.server, sys.handlers[id]);
        System(server, if next.Some? then sys.handlers[id := next.value] else sys.handlers - {id})
  }

  ghost function DoAll(cfg: Config, k: nat, sys: System, actions: seq<Action>): (r: System)
    requires ValidServer(cfg, sys.server)
    ensures ValidServer(cfg, r.server)
    decreases |actions|
  {
    if actions == [] then sys else DoAll(cfg, k, Do(cfg, k, sys, actions[0]), actions[1..])
  }

  // ----- the bound -----

  predicate Passed(h: Handler, epoch: int, nullifier: nat) {
    && (h.pc.Persist? || h.pc.SaveShare?)
    && h.event.message.epoch == epoch && ShareOf(h.event.message).nullifier == nullifier
  }

  /** Handlers that passed the spam check for this user and epoch and have not saved their share yet. */
  function Pending(handlers: map<nat, Handler>, epoch: int, nullifier: nat): set<nat> {
    set id | id in handlers && Passed(handlers[id], epoch, nullifier)
  }

  ghost predicate Bounded(cfg: Config, k: nat, sys: System) {
    && |sys.handlers| <= k
    && forall epoch, nullifier ::
         |SharesFor(sys.server.stats, epoch, nullifier)| + |Pending(sys.handlers, epoch, nullifier)|
         <= Limit(cfg.spamThreshold) + k - 1
  }

  lemma PendingAfterMove(handlers: map<nat, Handler>, id: nat, h: Handler, epoch: int, nullifier: nat)
    ensures Pending(handlers[id := h], epoch, nullifier)
            == (Pending(handlers, epoch, nullifier) - {id}) + (if Passed(h, epoch, nullifier) then {id} else {})
    ensures Pending(handlers - {id}, epoch, nullifier) == Pending(handlers, epoch, nullifier) - {id}
  {
  }

  lemma FewerPendingThanHandlers(handlers: map<nat, Handler>, epoch: int, nullifier: nat)
    ensures |Pending(handlers, epoch, nullifier)| <= |handlers|
  {
    SubsetIsNotLarger(Pending(handlers, epoch, nullifier), handlers.Keys);
  }

  /** What one stretch does to the share records and to the handler's own phase. */
  ghost predicate Effect(cfg: Config, s: Server, h: Handler, server: Server, next: Option<Handler>) {
    && server.stats == (if h.pc.SaveShare? then s.stats + [ShareOf(h.event.message)] else s.stats)
    && (next.Some? ==> next.value.event == h.event)
    && (h.pc.SaveShare? ==> next.None?)
    && (h.pc.Persist? ==> next == Some(h.(pc := SaveShare)))
    && (next.Some? && next.value.pc.Persist? ==>
          h.pc.CountShares?
          && |SharesFor(s.stats, h.event.message.epoch, ShareOf(h.event.message).nullifier)| < Limit(cfg.spamThreshold))
    && (next.Some? && next.value.pc.SaveShare? ==> h.pc.Persist?)
  }

  lemma CountEffect(cfg: Config, s: Server, h: Handler)
    requires ValidServer(cfg, s) && h.pc.CountShares?
    ensures var (server, next) := Advance(cfg, s, h);
            Effect(cfg, s, h, server, next)
  {
    hide ValidServer, SharesFor, Limit, IsSpam;
    SpamMeansLimitReached(s.stats, h.event.message.epoch, ShareOf(h.event.message).nullifier, cfg.spamThreshold);
  }

  lemma AdvanceEffect(cfg: Config, s: Server, h: Handler)
    requires ValidServer(cfg, s)
    ensures var (server, next) := Advance(cfg, s, h);
            Effect(cfg, s, h, server, next)
  {
    hide ValidServer, SharesFor, Limit, IsSpam, StoredRoot, IsZkProofValid, RecoverSecret, FirstLeaf,
         BanConflicts, IsDuplicate;
    if h.pc.CountShares? {
      CountEffect(cfg, s, h);
    } else if h.pc.ZeroLeaf? {
      var leaf := FirstLeaf(s.slots, h.pc.idCommitment);
      if leaf.Some? { ZeroingKeepsStats(cfg, s, leaf.value); }
    }
  }

  lemma ZeroingKeepsStats(cfg: Config, s: Server, i: nat)
    requires ValidServer(cfg, s) && i < |s.slots|
    ensures LeafZeroed(cfg, s, i).stats == s.stats && LeafZeroed(cfg, s, i).banned == s.banned
  {
    hide cfg.tree.Shape, HoldsSlots, cfg.tree.SetPath;
  }

  lemma ResumeKeepsBounded(cfg: Config, k: nat, sys: System, id: nat)
    requires ValidServer(cfg, sys.server) && Bounded(cfg, k, sys) && id in sys.handlers
    ensures Bounded(cfg, k, Do(cfg, k, sys, Resume(id)))
  {
    hide Advance, ValidServer, Limit, SharesFor;
    var h := sys.handlers[id];
    var (server, next) := Advance(cfg, sys.server, h);
    var after := Do(cfg, k, sys, Resume(id));
    AdvanceEffect(cfg, sys.server, h);
    assert after.handlers.Keys == if next.Some? then sys.handlers.Keys else sys.handlers.Keys - {id};
    forall epoch, nullifier
      ensures |SharesFor(after.server.stats, epoch, nullifier)| + |Pending(after.handlers, epoch, nullifier)|
              <= Limit(cfg.spamThreshold) + k - 1
    {
      if next.Some? {
        PendingAfterMove(sys.handlers, id, next.value, epoch, nullifier);
      } else {
        PendingAfterMove(sys.handlers, id, h, epoch, nullifier);
      }
      SharesForAfterSave(sys.server.stats, ShareOf(h.event.message), epoch, nullifier);
      FewerPendingThanHandlers(after.handlers, epoch, nullifier);
      assert id in Pending(sys.handlers, epoch, nullifier) <==> Passed(h, epoch, nullifier);
    }
  }

  lemma StartKeepsBounded(cfg: Config, k: nat, sys: System, id: nat, event: Event)
    requires ValidServer(cfg, sys.server) && Bounded(cfg, k, sys)
    ensures Bounded(cfg, k, Do(cfg, k, sys, Start(id, event)))
  {
    hide ValidServer, Limit, SharesFor, VerifyEpoch;
    var after := Do(cfg, k, sys, Start(id, event));
    forall epoch, nullifier
      ensures Pending(after.handlers, epoch, nullifier) == Pending(sys.handlers, epoch, nullifier)
    {
      PendingAfterMove(sys.handlers, id, Handler(event, LookForDuplicate), epoch, nullifier);
    }
  }

  /**
     Over every interleaving with at most k handlers in flight, no user gets more than
     Limit + k - 1 shares saved for an epoch; one handler at a time keeps the limit exactly.
   */
  lemma {:induction false} InterleavedSharesAreBounded(cfg: Config, k: nat, sys: System, actions: seq<Action>,
                                                       epoch: int, nullifier: nat)
    requires ValidServer(cfg, sys.server) && k > 0 && Bounded(cfg, k, sys)
    ensures |SharesFor(DoAll(cfg, k, sys, actions).server.stats, epoch, nullifier)| <= Limit(cfg.spamThreshold) + k - 1
    decreases |actions|
  {
    hide ValidServer, Limit, SharesFor, Do;
    if actions != [] {
      match actions[0] {
        case Start(id, event) => StartKeepsBounded(cfg, k, sys, id, event);
        case Resume(id) =>
          if id in sys.handlers { ResumeKeepsBounded(cfg, k, sys, id); } else { IdleLabel(cfg, k, sys, id); }
      }
      InterleavedSharesAreBounded(cfg, k, Do(cfg, k, sys, actions[0]), actions[1..], epoch, nullifier);
    }
  }

  lemma IdleLabel(cfg: Config, k: nat, sys: System, id: nat)
    requires ValidServer(cfg, sys.server) && id !in sys.handlers
    ensures Do(cfg, k, sys, Resume(id)) == sys
  {
  }

  lemma EmptyServerIsBounded(cfg: Config, k: nat, sys: System)
    requires sys.server.stats == [] && sys.handlers == map[] && k > 0
    ensures Bounded(cfg, k, sys)
  {
    forall epoch, nullifier ensures SharesFor([], epoch, nullifier) == [] && Pending(map[], epoch, nullifier) == {} { }
  }

  // ----- a handler alone -----

  /** The server after a handler ran to its end with no other handler in between. */
  ghost function Finish(cfg: Config, s: Server, h: Handler): (r: Server)
    requires ValidServer(cfg, s)
    ensures ValidServer(cfg, r)
    decreases StepsLeft(h.pc)
  {
    var (server, next) := Advance(cfg, s, h);
    if next.None? then server else Finish(cfg, server, next.value)
  }

  /** Taken without interruption, the stretches of a handler are the atomic step. */
  lemma UninterruptedHandlerIsTheAtomicStep(cfg: Config, s: Server, event: Event)
    requires ValidServer(cfg, s) && VerifyEpoch(event.message.epoch, event.now, cfg.allowedDelay)
    ensures Finish(cfg, s, Handler(event, LookForDuplicate)) == Step(cfg, s, event).0
  {
    hide ValidServer, StoredRoot, IsZkProofValid, IsSpam, RecoverSecret;
    var m, share := event.message, ShareOf(event.message);
    if !IsDuplicate(s.stats, share) && StoredRoot(cfg, s).Some? {
      var root := StoredRoot(cfg, s).value;
      assert Finish(cfg, s, Handler(event, LookForDuplicate)) == Finish(cfg, s, Handler(event, ReadRoot));
      assert Finish(cfg, s, Handler(event, ReadRoot)) == Finish(cfg, s, Handler(event, VerifyProof(root)));
      if IsZkProofValid(cfg, m.zkProof, root) {
        assert Finish(cfg, s, Handler(event, VerifyProof(root))) == Finish(cfg, s, Handler(event, CountShares));
        DecidedHandlerFinishes(cfg, s, event);
      }
    }
  }

  lemma RecordedBanFinishes(cfg: Config, s: Server, event: Event, secret: nat)
    requires ValidServer(cfg, s)
    ensures Finish(cfg, s, Handler(event, RecordBan(secret))) == Ban(cfg, s, secret).0
  {
    hide cfg.tree.Shape, HoldsSlots, cfg.tree.SetPath;
    var idCommitment := cfg.rln.commitment(secret);
    var leaf := FirstLeaf(s.slots, idCommitment);
    if leaf.Some? && !BanConflicts(s.banned, BannedUser(idCommitment, leaf.value, secret)) {
      var recorded := s.(banned := s.banned + [BannedUser(idCommitment, leaf.value, secret)]);
      assert Finish(cfg, s, Handler(event, RecordBan(secret)))
             == Finish(cfg, recorded, Handler(event, ZeroLeaf(idCommitment)));
    }
  }

  lemma SpamHandlerFinishes(cfg: Config, s: Server, event: Event)
    requires ValidServer(cfg, s)
    requires SharesFor(s.stats, event.message.epoch, ShareOf(event.message).nullifier) != []
    ensures
      var share := ShareOf(event.message);
      Finish(cfg, s, Handler(event, ReadShares))
      == match RecoverSecret(cfg, SharesFor(s.stats, event.message.epoch, share.nullifier), share)
         case None => s
         case Some(secret) => Ban(cfg, s, secret).0
  {
    hide cfg.tree.Shape, HoldsSlots, SharesFor, LeafZeroed, Ban, BanConflicts, FirstLeaf, RecoverSecret,
         StoredRoot, IsZkProofValid, IsDuplicate;
    var share := ShareOf(event.message);
    var secret := RecoverSecret(cfg, SharesFor(s.stats, event.message.epoch, share.nullifier), share);
    if secret.Some? {
      assert Finish(cfg, s, Handler(event, ReadShares)) == Finish(cfg, s, Handler(event, RecordBan(secret.value)));
      RecordedBanFinishes(cfg, s, event, secret.value);
    }
  }

  lemma AcceptedHandlerFinishes(cfg: Config, s: Server, event: Event)
    requires ValidServer(cfg, s)
    ensures Finish(cfg, s, Handler(event, Persist))
            == s.(stats := s.stats + [ShareOf(event.message)],
                  messages := s.messages + [Persisted(event)],
                  published := s.published + [Broadcast(Persisted(event))])
  {
    hide ValidServer;
    var persisted := s.(messages := s.messages + [Persisted(event)]);
    assert Finish(cfg, s, Handler(event, Persist)) == Finish(cfg, persisted, Handler(event, SaveShare));
  }

  lemma DecidedHandlerFinishes(cfg: Config, s: Server, event: Event)
    requires ValidServer(cfg, s)
    ensures
      var share := ShareOf(event.message);
      Finish(cfg, s, Handler(event, CountShares))
      == if IsSpam(s.stats, event.message.epoch, share.nullifier, cfg.spamThreshold) then
           match RecoverSecret(cfg, SharesFor(s.stats, event.message.epoch, share.nullifier), share)
           case None => s
           case Some(secret) => Ban(cfg, s, secret).0
         else
           s.(stats := s.stats + [share],
              messages := s.messages + [Persisted(event)],
              published := s.published + [Broadcast(Persisted(event))])
  {
    hide cfg.tree.Shape, HoldsSlots, SharesFor, LeafZeroed, Ban, BanConflicts, FirstLeaf, RecoverSecret,
         StoredRoot, IsZkProofValid, IsDuplicate;
    if IsSpam(s.stats, event.message.epoch, ShareOf(event.message).nullifier, cfg.spamThreshold) {
      assert Finish(cfg, s, Handler(event, CountShares)) == Finish(cfg, s, Handler(event, ReadShares));
      SpamHandlerFinishes(cfg, s, event);
    } else {
      assert Finish(cfg, s, Handler(event, CountShares)) == Finish(cfg, s, Handler(event, Persist));
      AcceptedHandlerFinishes(cfg, s, event);
    }
  }

  // ----- the bound is reached -----

  lemma {:induction false} DoAllInTwoParts(cfg: Config, k: nat, sys: System, a: seq<Action>, b: seq<Action>)
    requires ValidServer(cfg, sys.server)
    ensures DoAll(cfg, k, sys, a + b) == DoAll(cfg, k, DoAll(cfg, k, sys, a), b)
    decreases |a|
  {
    hide ValidServer, Do;
    if a == [] {
      assert a + b == b;
    } else {
      assert (a + b)[0] == a[0] && (a + b)[1..] == a[1..] + b;
      DoAllInTwoParts(cfg, k, Do(cfg, k, sys, a[0]), a[1..], b);
    }
  }

  lemma DoAllInThreeParts(cfg: Config, k: nat, sys: System, a: seq<Action>, b: seq<Action>, c: seq<Action>)
    requires ValidServer(cfg, sys.server)
    ensures DoAll(cfg, k, sys, a + b + c) == DoAll(cfg, k, DoAll(cfg, k, DoAll(cfg, k, sys, a), b), c)
  {
    hide ValidServer, DoAll;
    DoAllInTwoParts(cfg, k, sys, a + b, c);
    DoAllInTwoParts(cfg, k, sys, a, b);
  }

  /** The only messages that the actions start are the given ones. */
  ghost predicate StartsOnly(actions: seq<Action>, events: seq<Event>) {
    forall a | a in actions :: a.Start? ==> a.event in events
  }

  function Shares(events: seq<Event>): (shares: seq<Share>)
    ensures |shares| == |events|
  {
    seq(|events|, i requires 0 <= i < |events| => ShareOf(events[i].message))
  }

  /** Different messages of one user for one epoch that all pass the epoch and proof checks. */
  ghost predicate Supply(cfg: Config, s: Server, events: seq<Event>, epoch: int, nullifier: nat) {
    && ValidServer(cfg, s) && s.slots != []
    && (forall e | e in events ::
          && e.message.epoch == epoch && ShareOf(e.message).nullifier == nullifier
          && VerifyEpoch(epoch, e.now, cfg.allowedDelay)
          && IsZkProofValid(cfg, e.message.zkProof, StoredRoot(cfg, s).value))
    && (forall i, j | 0 <= i < j < |events| :: ShareOf(events[i].message) != ShareOf(events[j].message))
  }

  /** The first n messages are saved, and the tree and the bans are as they were. */
  ghost predicate Saved(s: Server, now: Server, events: seq<Event>, n: nat)
    requires n <= |events|
  {
    && now.nodes == s.nodes && now.slots == s.slots && now.banned == s.banned
    && now.stats == Shares(events[..n])
  }

  lemma SharesOfOneMore(events: seq<Event>, n: nat)
    requires n < |events|
    ensures Shares(events[..n + 1]) == Shares(events[..n]) + [ShareOf(events[n].message)]
  {
    assert events[..n + 1] == events[..n] + [events[n]];
  }

  lemma {:induction false} AllSharesMatch(cfg: Config, s: Server, events: seq<Event>, epoch: int, nullifier: nat,
                                          n: nat)
    requires Supply(cfg, s, events, epoch, nullifier) && n <= |events|
    ensures SharesFor(Shares(events[..n]), epoch, nullifier) == Shares(events[..n])
  {
    hide ValidServer, StoredRoot, VerifyEpoch, IsZkProofValid;
    if n > 0 {
      AllSharesMatch(cfg, s, events, epoch, nullifier, n - 1);
      SharesOfOneMore(events, n - 1);
      assert events[n - 1] in events;
      SharesForAfterSave(Shares(events[..n - 1]), ShareOf(events[n - 1].message), epoch, nullifier);
    }
  }

  /** A message that is let in moves, alone, to the point where it is accepted but not saved. */
  lemma Enter(cfg: Config, k: nat, s: Server, sys: System, events: seq<Event>, epoch: int, nullifier: nat, n: nat,
              i: nat)
    returns (actions: seq<Action>)
    requires Supply(cfg, s, events, epoch, nullifier) && ValidServer(cfg, sys.server)
    requires n <= i < |events| && n < Limit(cfg.spamThreshold) && Saved(s, sys.server, events, n)
    requires i !in sys.handlers && |sys.handlers| < k
    ensures DoAll(cfg, k, sys, actions) == sys.(handlers := sys.handlers[i := Handler(events[i], Persist)])
    ensures StartsOnly(actions, events)
  {
    var e, root := events[i], StoredRoot(cfg, s).value;
    assert e in events && ShareOf(e.message) !in sys.server.stats;
    AllSharesMatch(cfg, s, events, epoch, nullifier, n);
    actions := [Start(i, e), Resume(i), Resume(i), Resume(i), Resume(i)];
    LetIn(cfg, k, sys, i, e, root);
  }

  lemma LetIn(cfg: Config, k: nat, sys: System, i: nat, e: Event, root: nat)
    requires ValidServer(cfg, sys.server) && StoredRoot(cfg, sys.server) == Some(root)
    requires i !in sys.handlers && |sys.handlers| < k
    requires VerifyEpoch(e.message.epoch, e.now, cfg.allowedDelay) && IsZkProofValid(cfg, e.message.zkProof, root)
    requires !IsDuplicate(sys.server.stats, ShareOf(e.message))
    requires !IsSpam(sys.server.stats, e.message.epoch, ShareOf(e.message).nullifier, cfg.spamThreshold)
    ensures DoAll(cfg, k, sys, [Start(i, e), Resume(i), Resume(i), Resume(i), Resume(i)])
            == sys.(handlers := sys.handlers[i := Handler(e, Persist)])
  {
    hide ValidServer, StoredRoot, VerifyEpoch, IsZkProofValid, IsDuplicate, IsSpam, DoAll, Do;
    FiveActions(cfg, k, sys, Start(i, e), Resume(i));
    StartAddsHandler(cfg, k, sys, i, e);
    MovesTo(cfg, k, sys, i, Handler(e, LookForDuplicate), Handler(e, ReadRoot));
    MovesTo(cfg, k, sys, i, Handler(e, ReadRoot), Handler(e, VerifyProof(root)));
    MovesTo(cfg, k, sys, i, Handler(e, VerifyProof(root)), Handler(e, CountShares));
    MovesTo(cfg, k, sys, i, Handler(e, CountShares), Handler(e, Persist));
  }

  lemma StartAddsHandler(cfg: Config, k: nat, sys: System, i: nat, e: Event)
    requires ValidServer(cfg, sys.server) && i !in sys.handlers && |sys.handlers| < k
    requires VerifyEpoch(e.message.epoch, e.now, cfg.allowedDelay)
    ensures Do(cfg, k, sys, Start(i, e)) == sys.(handlers := sys.handlers[i := Handler(e, LookForDuplicate)])
  {
  }

  lemma MovesTo(cfg: Config, k: nat, sys: System, i: nat, g: Handler, h: Handler)
    requires ValidServer(cfg, sys.server) && Advance(cfg, sys.server, g) == (sys.server, Some(h))
    ensures Do(cfg, k, sys.(handlers := sys.handlers[i := g]), Resume(i)) == sys.(handlers := sys.handlers[i := h])
  {
    assert sys.handlers[i := g][i := h] == sys.handlers[i := h];
  }

  lemma FiveActions(cfg: Config, k: nat, sys: System, a: Action, b: Action)
    requires ValidServer(cfg, sys.server)
    ensures DoAll(cfg, k, sys, [a, b, b, b, b])
            == Do(cfg, k, Do(cfg, k, Do(cfg, k, Do(cfg, k, Do(cfg, k, sys, a), b), b), b), b)
  {
    hide Do, ValidServer;
    DoAllInTwoParts(cfg, k, sys, [a, b], [b, b, b]);
    assert [a, b] + [b, b, b] == [a, b, b, b, b];
    DoAllOfTwo(cfg, k, sys, a, b);
    var mid := DoAll(cfg, k, sys, [a, b]);
    DoAllInTwoParts(cfg, k, mid, [b, b], [b]);
    assert [b, b] + [b] == [b, b, b];
    DoAllOfTwo(cfg, k, mid, b, b);
  }

  lemma OneAction(cfg: Config, k: nat, sys: System, a: Action)
    requires ValidServer(cfg, sys.server)
    ensures DoAll(cfg, k, sys, [a]) == Do(cfg, k, sys, a)
  {
    hide ValidServer, Do;
    assert [a][1..] == [];
  }

  lemma DoAllOfTwo(cfg: Config, k: nat, sys: System, a: Action, b: Action)
    requires ValidServer(cfg, sys.server)
    ensures DoAll(cfg, k, sys, [a, b]) == Do(cfg, k, Do(cfg, k, sys, a), b)
  {
    hide Do, ValidServer;
    var mid := Do(cfg, k, sys, a);
    assert [a, b][1..] == [b] && [b][1..] == [];
    assert DoAll(cfg, k, sys, [a, b]) == DoAll(cfg, k, mid, [b]) == DoAll(cfg, k, Do(cfg, k, mid, b), []);
  }

  /** An accepted message is persisted and saved. */
  lemma AcceptedIsSaved(cfg: Config, k: nat, sys: System, i: nat, e: Event)
    requires ValidServer(cfg, sys.server) && i in sys.handlers && sys.handlers[i] == Handler(e, Persist)
    ensures var r := DoAll(cfg, k, sys, [Resume(i), Resume(i)]);
            && r.server.stats == sys.server.stats + [ShareOf(e.message)]
            && r.server.nodes == sys.server.nodes && r.server.slots == sys.server.slots
            && r.server.banned == sys.server.banned
            && r.handlers == sys.handlers - {i}
  {
    hide ValidServer, DoAll;
    DoAllOfTwo(cfg, k, sys, Resume(i), Resume(i));
    var mid := Do(cfg, k, sys, Resume(i));
    assert mid.handlers == sys.handlers[i := Handler(e, SaveShare)];
    assert mid.server == sys.server.(messages := sys.server.messages + [Persisted(e)]);
    var end := Do(cfg, k, mid, Resume(i));
    assert end.handlers == sys.handlers - {i};
  }

  lemma Leave(cfg: Config, k: nat, s: Server, sys: System, events: seq<Event>, n: nat)
    returns (actions: seq<Action>)
    requires ValidServer(cfg, sys.server) && n < |events| && Saved(s, sys.server, events, n)
    requires n in sys.handlers && sys.handlers[n] == Handler(events[n], Persist)
    ensures var r := DoAll(cfg, k, sys, actions);
            Saved(s, r.server, events, n + 1) && r.handlers == sys.handlers - {n}
    ensures StartsOnly(actions, events)
  {
    hide ValidServer, DoAll;
    actions := [Resume(n), Resume(n)];
    AcceptedIsSaved(cfg, k, sys, n, events[n]);
    SharesOfOneMore(events, n);
  }

  lemma {:induction false} OneAfterTheOther(cfg: Config, k: nat, s: Server, events: seq<Event>, epoch: int,
                                            nullifier: nat, n: nat)
    returns (actions: seq<Action>)
    requires Supply(cfg, s, events, epoch, nullifier) && s.stats == [] && k > 0
    requires n <= |events| && n <= Limit(cfg.spamThreshold)
    ensures var r := DoAll(cfg, k, System(s, map[]), actions);
            Saved(s, r.server, events, n) && r.handlers == map[]
    ensures StartsOnly(actions, events)
  {
    hide Supply, ValidServer, Do;
    SupplyIsValid(cfg, s, events, epoch, nullifier);
    if n == 0 {
      actions := [];
      assert Shares(events[..0]) == [];
    } else {
      var start := System(s, map[]);
      var a := OneAfterTheOther(cfg, k, s, events, epoch, nullifier, n - 1);
      var r1 := DoAll(cfg, k, start, a);
      var b := Enter(cfg, k, s, r1, events, epoch, nullifier, n - 1, n - 1);
      var r2 := DoAll(cfg, k, r1, b);
      var c := Leave(cfg, k, s, r2, events, n - 1);
      actions := a + b + c;
      DoAllInThreeParts(cfg, k, start, a, b, c);
    }
  }

  lemma SupplyIsValid(cfg: Config, s: Server, events: seq<Event>, epoch: int, nullifier: nat)
    requires Supply(cfg, s, events, epoch, nullifier)
    ensures ValidServer(cfg, s)
  {
  }

  /** Handlers of messages lo to hi - 1, all past the spam check and not saved yet. */
  ghost function Crowd(events: seq<Event>, lo: nat, hi: nat): map<nat, Handler>
    requires hi <= |events|
  {
    map i: nat | lo <= i < hi :: Handler(events[i], Persist)
  }

  lemma {:induction false} CrowdSize(events: seq<Event>, lo: nat, hi: nat)
    requires lo <= hi <= |events|
    ensures |Crowd(events, lo, hi)| == hi - lo
    decreases hi
  {
    if lo < hi {
      CrowdSize(events, lo, hi - 1);
      assert Crowd(events, lo, hi) == Crowd(events, lo, hi - 1)[hi - 1 := Handler(events[hi - 1], Persist)];
    }
  }

  /** With the limit not reached yet, k handlers pass the spam check before any of them saves. */
  lemma {:induction false} AllPassTogether(cfg: Config, k: nat, s: Server, sys: System, events: seq<Event>,
                                           epoch: int, nullifier: nat, n: nat, j: nat)
    returns (actions: seq<Action>)
    requires Supply(cfg, s, events, epoch, nullifier) && ValidServer(cfg, sys.server)
    requires n + j <= |events| && j <= k && n < Limit(cfg.spamThreshold)
    requires Saved(s, sys.server, events, n) && sys.handlers == map[]
    ensures DoAll(cfg, k, sys, actions) == System(sys.server, Crowd(events, n, n + j))
    decreases j
  {
    hide Supply, ValidServer, Do;
    if j == 0 {
      actions := [];
      assert Crowd(events, n, n) == map[];
    } else {
      var a := AllPassTogether(cfg, k, s, sys, events, epoch, nullifier, n, j - 1);
      var mid := DoAll(cfg, k, sys, a);
      CrowdSize(events, n, n + j - 1);
      var b := Enter(cfg, k, s, mid, events, epoch, nullifier, n, n + j - 1);
      actions := a + b;
      DoAllInTwoParts(cfg, k, sys, a, b);
      assert Crowd(events, n, n + j) == Crowd(events, n, n + j - 1)[n + j - 1 := Handler(events[n + j - 1], Persist)];
    }
  }

  lemma {:induction false} AllSave(cfg: Config, k: nat, s: Server, sys: System, events: seq<Event>, n: nat, hi: nat)
    returns (actions: seq<Action>)
    requires ValidServer(cfg, sys.server) && n <= hi <= |events|
    requires Saved(s, sys.server, events, n) && sys.handlers == Crowd(events, n, hi)
    ensures Saved(s, DoAll(cfg, k, sys, actions).server, events, hi)
    decreases hi - n
  {
    hide ValidServer, Do, Saved;
    if n == hi {
      actions := [];
    } else {
      var a := Leave(cfg, k, s, sys, events, n);
      var mid := DoAll(cfg, k, sys, a);
      assert Crowd(events, n, hi) - {n} == Crowd(events, n + 1, hi);
      var b := AllSave(cfg, k, s, mid, events, n + 1, hi);
      actions := a + b;
      DoAllInTwoParts(cfg, k, sys, a, b);
    }
  }

  /** Some interleaving saves the first Limit + k - 1 messages of a supply. */
  lemma WholeSupplyIsSaved(cfg: Config, k: nat, s: Server, events: seq<Event>, epoch: int, nullifier: nat)
    returns (actions: seq<Action>)
    requires Supply(cfg, s, events, epoch, nullifier) && ValidServer(cfg, s) && s.stats == [] && k > 0
    requires |events| == Limit(cfg.spamThreshold) + k - 1
    ensures Saved(s, DoAll(cfg, k, System(s, map[]), actions).server, events, |events|)
  {
    hide Supply, ValidServer, Do, DoAll, Saved, Crowd;
    var n := Limit(cfg.spamThreshold) - 1;
    var start := System(s, map[]);
    var a := OneAfterTheOther(cfg, k, s, events, epoch, nullifier, n);
    var alone := DoAll(cfg, k, start, a);
    var b := AllPassTogether(cfg, k, s, alone, events, epoch, nullifier, n, k);
    var crowded := DoAll(cfg, k, alone, b);
    var c := AllSave(cfg, k, s, crowded, events, n, n + k);
    actions := a + b + c;
    DoAllInThreeParts(cfg, k, start, a, b, c);
  }

  /**
     The bound is reached: given enough different messages of one user, some interleaving of
     k handlers saves exactly Limit + k - 1 shares of that user for one epoch.
   */
  lemma InterleavedBoundIsReached(cfg: Config, k: nat, s: Server, events: seq<Event>, epoch: int, nullifier: nat)
    returns (actions: seq<Action>)
    requires Supply(cfg, s, events, epoch, nullifier) && ValidServer(cfg, s) && s.stats == [] && k > 0
    requires |events| == Limit(cfg.spamThreshold) + k - 1
    ensures |SharesFor(DoAll(cfg, k, System(s, map[]), actions).server.stats, epoch, nullifier)|
            == Limit(cfg.spamThreshold) + k - 1
  {
    hide Supply, ValidServer, DoAll, Limit, SharesFor;
    actions := WholeSupplyIsSaved(cfg, k, s, events, epoch, nullifier);
    AllSharesMatch(cfg, s, events, epoch, nullifier, |events|);
  }

  // ----- what interleaving loses -----

  /** Two copies of one message in flight together are both saved: neither sees the other's record. */
  lemma CopiesInFlightAreBothSaved(cfg: Config, k: nat, s: Server, e: Event, root: nat) returns (actions: seq<Action>)
    requires ValidServer(cfg, s) && StoredRoot(cfg, s) == Some(root) && s.stats == [] && k >= 2
    requires VerifyEpoch(e.message.epoch, e.now, cfg.allowedDelay) && IsZkProofValid(cfg, e.message.zkProof, root)
    ensures DoAll(cfg, k, System(s, map[]), actions).server.stats == [ShareOf(e.message), ShareOf(e.message)]
  {
    hide ValidServer, StoredRoot, VerifyEpoch, IsZkProofValid, Do;
    var start := System(s, map[]);
    var a := [Start(0, e), Resume(0), Resume(0), Resume(0), Resume(0)];
    var b := [Start(1, e), Resume(1), Resume(1), Resume(1), Resume(1)];
    var c, d := [Resume(0), Resume(0)], [Resume(1), Resume(1)];
    LetIn(cfg, k, start, 0, e, root);
    var s1 := DoAll(cfg, k, start, a);
    LetIn(cfg, k, s1, 1, e, root);
    var s2 := DoAll(cfg, k, s1, b);
    AcceptedIsSaved(cfg, k, s2, 0, e);
    var s3 := DoAll(cfg, k, s2, c);
    AcceptedIsSaved(cfg, k, s3, 1, e);
    actions := a + b + c + d;
    DoAllInTwoParts(cfg, k, start, a + b + c, d);
    DoAllInTwoParts(cfg, k, start, a + b, c);
    DoAllInTwoParts(cfg, k, start, a, b);
  }

  /** Recovery fails exactly when the first two shares have the same x. */
  lemma RecoveryFailsExactlyOnEqualX(cfg: Config, saved: seq<Share>, own: Share)
    requires saved != [] && cfg.rln.p > 0
    requires forall share | share in saved + [own] :: share.x < cfg.rln.p
    ensures RecoverSecret(cfg, saved, own).None? <==> (saved + [own])[0].x == (saved + [own])[1].x
  {
    var shares := saved + [own];
    assert shares[0] in shares && shares[1] in shares;
    if shares[0].x != shares[1].x {
      PrimeField.DistinctResidues(shares[0].x, shares[1].x, cfg.rln.p);
    } else {
      PrimeField.QuotientIsUnique(0, 0, 0, cfg.rln.p);
    }
  }

  /** Once a repeated share heads a user's records of an epoch, no message of that user and epoch gets anyone banned. */
  lemma RepeatedSharePreventsTheBan(cfg: Config, s: Server, event: Event, share: Share)
    requires ValidServer(cfg, s)
    requires [share, share] <= SharesFor(s.stats, event.message.epoch, ShareOf(event.message).nullifier)
    ensures !Step(cfg, s, event).1.Banned?
  {
    hide cfg.tree.Shape, HoldsSlots, Ban, StoredRoot, IsZkProofValid;
    PrimeField.QuotientIsUnique(0, 0, 0, cfg.rln.p);
  }
}
