/**
 A handler checks a proof against the root that it read, whatever other handlers have done to
 the tree since: a message in flight is accepted although its sender was banned meanwhile.
 */
module StaleRoots {
  import opened MerkleTree
  import opened UserServices
  import opened Admission
  import opened AdmissionRuns
  import opened Interleaving

  /** Resumed again and again, a handler among others comes to its end as if it were alone. */
  lemma {:induction false} RunsToItsEnd(cfg: Config, k: nat, sys: System, id: nat) returns (actions: seq<Action>)
    requires ValidServer(cfg, sys.server) && id in sys.handlers
    ensures DoAll(cfg, k, sys, actions) == System(Finish(cfg, sys.server, sys.handlers[id]), sys.handlers - {id})
    ensures forall a | a in actions :: a == Resume(id)
    decreases StepsLeft(sys.handlers[id].pc)
  {
    hide ValidServer, Advance;
    var next := Do(cfg, k, sys, Resume(id));
    if Advance(cfg, sys.server, sys.handlers[id]).1.Some? {
      var rest := RunsToItsEnd(cfg, k, next, id);
      actions := [Resume(id)] + rest;
      assert actions[1..] == rest;
      assert next.handlers - {id} == sys.handlers - {id};
    } else {
      actions := [Resume(id)];
      assert actions[1..] == [];
    }
  }

  function AcceptedWith(s: Server, e: Event): Server {
    s.(stats := s.stats + [ShareOf(e.message)], messages := s.messages + [Persisted(e)],
       published := s.published + [Broadcast(Persisted(e))])
  }

  /**
     From the state of any store on, a handler that has read a root accepts its message exactly
     when the proof is valid against that root and the records are within the limit; the stored
     root does not matter any more.
   */
  lemma ReadRootDecides(cfg: Config, s: Server, e: Event, root: nat)
    requires ValidServer(cfg, s)
    requires !IsSpam(s.stats, e.message.epoch, NullifierOf(e), cfg.spamThreshold)
    ensures Finish(cfg, s, Handler(e, VerifyProof(root)))
            == if IsZkProofValid(cfg, e.message.zkProof, root) then AcceptedWith(s, e) else s
  {
    hide ValidServer, IsZkProofValid, IsSpam, StoredRoot;
    if IsZkProofValid(cfg, e.message.zkProof, root) {
      assert Finish(cfg, s, Handler(e, VerifyProof(root))) == Finish(cfg, s, Handler(e, CountShares));
      assert Finish(cfg, s, Handler(e, CountShares)) == Finish(cfg, s, Handler(e, Persist));
      var persisted := s.(messages := s.messages + [Persisted(e)]);
      assert Finish(cfg, s, Handler(e, Persist)) == Finish(cfg, persisted, Handler(e, SaveShare));
    }
  }

  /** A handler that has started and read the root, with no other in flight. */
  lemma ReadsTheRoot(cfg: Config, k: nat, s: Server, e: Event)
    requires ValidServer(cfg, s) && k > 0 && VerifyEpoch(e.message.epoch, e.now, cfg.allowedDelay)
    requires ShareOf(e.message) !in s.stats && StoredRoot(cfg, s).Some?
    ensures DoAll(cfg, k, System(s, map[]), [Start(0, e)] + [Resume(0), Resume(0)])
            == System(s, map[0 := Handler(e, VerifyProof(StoredRoot(cfg, s).value))])
  {
    hide ValidServer, StoredRoot, VerifyEpoch, DoAll, Do;
    var sys, root := System(s, map[]), StoredRoot(cfg, s).value;
    DoAllInTwoParts(cfg, k, sys, [Start(0, e)], [Resume(0), Resume(0)]);
    OneAction(cfg, k, sys, Start(0, e));
    StartAddsHandler(cfg, k, sys, 0, e);
    var started := System(s, map[0 := Handler(e, LookForDuplicate)]);
    assert sys.(handlers := sys.handlers[0 := Handler(e, LookForDuplicate)]) == started;
    DoAllOfTwo(cfg, k, started, Resume(0), Resume(0));
    MovesTo(cfg, k, sys, 0, Handler(e, LookForDuplicate), Handler(e, ReadRoot));
    MovesTo(cfg, k, sys, 0, Handler(e, ReadRoot), Handler(e, VerifyProof(root)));
    assert sys.handlers[0 := Handler(e, VerifyProof(root))] == map[0 := Handler(e, VerifyProof(root))];
  }

  lemma BanPassedTheEpochCheck(cfg: Config, s: Server, ban: Event)
    requires ValidServer(cfg, s) && Step(cfg, s, ban).1.Banned?
    ensures VerifyEpoch(ban.message.epoch, ban.now, cfg.allowedDelay)
    ensures Step(cfg, s, ban).0.stats == s.stats && Step(cfg, s, ban).0.messages == s.messages
  {
    hide VerifyEpoch, IsSpam, IsZkProofValid, RecoverSecret, StoredRoot, SharesFor, FirstLeaf, BanConflicts,
         cfg.tree.Shape, HoldsSlots, cfg.tree.SetPath;
  }

  /**
     A message gets its sender banned while an earlier-read message of any user, the sender
     included, is in flight: that message is accepted after the ban, although it may not be
     provable against the root that the ban has left.
   */
  lemma MessageInFlightOutlivesABan(cfg: Config, k: nat, s: Server, e: Event, ban: Event) returns (actions: seq<Action>)
    requires ValidServer(cfg, s) && k >= 2 && Step(cfg, s, ban).1.Banned?
    requires VerifyEpoch(e.message.epoch, e.now, cfg.allowedDelay) && ShareOf(e.message) !in s.stats
    requires StoredRoot(cfg, s).Some? && IsZkProofValid(cfg, e.message.zkProof, StoredRoot(cfg, s).value)
    requires !IsSpam(s.stats, e.message.epoch, NullifierOf(e), cfg.spamThreshold)
    ensures DoAll(cfg, k, System(s, map[]), actions) == System(AcceptedWith(Step(cfg, s, ban).0, e), map[])
  {
    hide ValidServer, StoredRoot, VerifyEpoch, IsZkProofValid, IsSpam, DoAll, Do, Step, Finish, Advance;
    var root, banned := StoredRoot(cfg, s).value, Step(cfg, s, ban).0;
    var reading := System(s, map[0 := Handler(e, VerifyProof(root))]);
    ReadsTheRoot(cfg, k, s, e);
    BanPassedTheEpochCheck(cfg, s, ban);
    OneAction(cfg, k, reading, Start(1, ban));
    StartAddsHandler(cfg, k, reading, 1, ban);
    var both := reading.(handlers := reading.handlers[1 := Handler(ban, LookForDuplicate)]);
    var toBan := RunsToItsEnd(cfg, k, both, 1);
    UninterruptedHandlerIsTheAtomicStep(cfg, s, ban);
    assert both.handlers - {1} == reading.handlers;
    var after := System(banned, reading.handlers);
    var toEnd := RunsToItsEnd(cfg, k, after, 0);
    ReadRootDecides(cfg, banned, e, root);
    assert after.handlers - {0} == map[];
    actions := [Start(0, e)] + [Resume(0), Resume(0)] + ([Start(1, ban)] + toBan + toEnd);
    DoAllInTwoParts(cfg, k, System(s, map[]), [Start(0, e)] + [Resume(0), Resume(0)], [Start(1, ban)] + toBan + toEnd);
    DoAllInThreeParts(cfg, k, reading, [Start(1, ban)], toBan, toEnd);
  }
}
