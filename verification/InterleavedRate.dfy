/** The accepted rate of one user when handlers interleave. */
module InterleavedRate {
  import opened Admission
  import opened AdmissionRuns
  import opened AdmissionRules
  import opened Interleaving
  import opened RateBound

  /** The action lets a handler save a share of the secret's owner, and so completes an acceptance. */
  ghost predicate Saves(cfg: Config, sys: System, a: Action, secret: nat) {
    && a.Resume? && a.id in sys.handlers && sys.handlers[a.id].pc.SaveShare?
    && SentBy(cfg, secret, sys.handlers[a.id].event)
  }

  /** How many messages of the secret's owner are accepted whose epoch was checked while the clock read t1 to t2. */
  ghost function SavedDuring(cfg: Config, k: nat, sys: System, actions: seq<Action>, secret: nat, t1: int, t2: int): nat
    requires ValidServer(cfg, sys.server)
    decreases |actions|
  {
    if actions == [] then 0
    else
      (if Saves(cfg, sys, actions[0], secret) && t1 <= sys.handlers[actions[0].id].event.now <= t2 then 1 else 0)
      + SavedDuring(cfg, k, Do(cfg, k, sys, actions[0]), actions[1..], secret, t1, t2)
  }

  /** How many are accepted under the given names. */
  ghost function SavedFor(cfg: Config, k: nat, sys: System, actions: seq<Action>, secret: nat, names: Names): nat
    requires ValidServer(cfg, sys.server)
    decreases |actions|
  {
    if actions == [] then 0
    else
      (if Saves(cfg, sys, actions[0], secret) && NamesOf(sys.handlers[actions[0].id].event) == names then 1 else 0)
      + SavedFor(cfg, k, Do(cfg, k, sys, actions[0]), actions[1..], secret, names)
  }

  lemma DoSaves(cfg: Config, k: nat, sys: System, a: Action)
    requires ValidServer(cfg, sys.server)
    ensures Do(cfg, k, sys, a).server.stats
            == if a.Resume? && a.id in sys.handlers && sys.handlers[a.id].pc.SaveShare?
               then sys.server.stats + [ShareOf(sys.handlers[a.id].event.message)] else sys.server.stats
  {
    hide ValidServer, Advance, VerifyEpoch;
    if a.Resume? && a.id in sys.handlers {
      AdvanceEffect(cfg, sys.server, sys.handlers[a.id]);
    }
  }

  /** The proofs of the handlers past the check were valid, each against the root its handler had read. */
  ghost predicate ProofsChecked(cfg: Config, handlers: map<nat, Handler>) {
    forall id | id in handlers && PastProof(handlers[id].pc) ::
      exists root :: IsZkProofValid(cfg, handlers[id].event.message.zkProof, root)
  }

  lemma DoKeepsProofsChecked(cfg: Config, k: nat, sys: System, a: Action)
    requires ValidServer(cfg, sys.server) && ProofsChecked(cfg, sys.handlers)
    ensures ProofsChecked(cfg, Do(cfg, k, sys, a).handlers)
  {
    hide ValidServer, VerifyEpoch, IsZkProofValid, StoredRoot, IsSpam, SharesFor, RecoverSecret,
         LeafZeroed;
  }

  lemma SavedUnderOwnersNullifier(cfg: Config, sys: System, a: Action, secret: nat)
    requires ProofsChecked(cfg, sys.handlers) && Saves(cfg, sys, a, secret)
    ensures var e := sys.handlers[a.id].event;
            NullifierOf(e) == OwnersNullifier(cfg, secret, NamesOf(e))
  {
    hide OpenedBy, IsZkProofValid;
    var e := sys.handlers[a.id].event;
    var root :| IsZkProofValid(cfg, e.message.zkProof, root);
    NullifierIsTheOwners(cfg, e.message.zkProof, root, secret);
  }

  lemma {:induction false} SavedForAreShares(cfg: Config, k: nat, sys: System, actions: seq<Action>,
                                             secret: nat, names: Names)
    requires ValidServer(cfg, sys.server) && ProofsChecked(cfg, sys.handlers)
    ensures var nullifier := OwnersNullifier(cfg, secret, names);
            |SharesFor(sys.server.stats, names.epoch, nullifier)| + SavedFor(cfg, k, sys, actions, secret, names)
            <= |SharesFor(DoAll(cfg, k, sys, actions).server.stats, names.epoch, nullifier)|
    decreases |actions|
  {
    hide ValidServer, Do, SharesFor, SentBy, ProofsChecked, OwnersNullifier;
    if actions != [] {
      var a, nullifier := actions[0], OwnersNullifier(cfg, secret, names);
      DoSaves(cfg, k, sys, a);
      DoKeepsProofsChecked(cfg, k, sys, a);
      if a.Resume? && a.id in sys.handlers {
        SharesForAfterSave(sys.server.stats, ShareOf(sys.handlers[a.id].event.message), names.epoch, nullifier);
      }
      if Saves(cfg, sys, a, secret) { SavedUnderOwnersNullifier(cfg, sys, a, secret); }
      SavedForAreShares(cfg, k, Do(cfg, k, sys, a), actions[1..], secret, names);
    }
  }

  /** How many are accepted for any of the given names. */
  ghost function SavedIn(cfg: Config, k: nat, sys: System, actions: seq<Action>, secret: nat, all: set<Names>): nat
    requires ValidServer(cfg, sys.server)
    decreases |actions|
  {
    if actions == [] then 0
    else
      (if Saves(cfg, sys, actions[0], secret) && NamesOf(sys.handlers[actions[0].id].event) in all
       then 1 else 0)
      + SavedIn(cfg, k, Do(cfg, k, sys, actions[0]), actions[1..], secret, all)
  }

  lemma {:induction false} SavedInOneMore(cfg: Config, k: nat, sys: System, actions: seq<Action>, secret: nat,
                                          all: set<Names>, names: Names)
    requires ValidServer(cfg, sys.server) && names in all
    ensures SavedIn(cfg, k, sys, actions, secret, all)
            == SavedIn(cfg, k, sys, actions, secret, all - {names}) + SavedFor(cfg, k, sys, actions, secret, names)
    decreases |actions|
  {
    hide ValidServer, SentBy, Do;
    if actions != [] {
      SavedInOneMore(cfg, k, Do(cfg, k, sys, actions[0]), actions[1..], secret, all, names);
    }
  }

  lemma {:induction false} NothingSavedUnderNoName(cfg: Config, k: nat, sys: System, actions: seq<Action>, secret: nat)
    requires ValidServer(cfg, sys.server)
    ensures SavedIn(cfg, k, sys, actions, secret, {}) == 0
    decreases |actions|
  {
    hide ValidServer, SentBy, Do;
    if actions != [] {
      NothingSavedUnderNoName(cfg, k, Do(cfg, k, sys, actions[0]), actions[1..], secret);
    }
  }

  /** The owner's message, if its epoch is in the window, has one of the given names. */
  ghost predicate InNames(cfg: Config, secret: nat, e: Event, t1: int, t2: int, all: set<Names>) {
    SentBy(cfg, secret, e) && InWindow(cfg, t1, t2, e.message.epoch) ==> NamesOf(e) in all
  }

  /** So has every handler's, and it passed the epoch check. */
  ghost predicate Covered(cfg: Config, secret: nat, handlers: map<nat, Handler>, t1: int, t2: int, all: set<Names>) {
    forall id | id in handlers ::
      var e := handlers[id].event;
      VerifyEpoch(e.message.epoch, e.now, cfg.allowedDelay) && InNames(cfg, secret, e, t1, t2, all)
  }

  ghost predicate StartsCovered(cfg: Config, secret: nat, actions: seq<Action>, t1: int, t2: int, all: set<Names>) {
    forall a | a in actions && a.Start? :: InNames(cfg, secret, a.event, t1, t2, all)
  }

  lemma DoKeepsCovered(cfg: Config, k: nat, sys: System, a: Action, secret: nat, t1: int, t2: int, all: set<Names>)
    requires ValidServer(cfg, sys.server) && Covered(cfg, secret, sys.handlers, t1, t2, all)
    requires a.Start? ==> InNames(cfg, secret, a.event, t1, t2, all)
    ensures Covered(cfg, secret, Do(cfg, k, sys, a).handlers, t1, t2, all)
  {
    hide ValidServer, Advance, VerifyEpoch, InNames;
    if a.Resume? && a.id in sys.handlers {
      AdvanceEffect(cfg, sys.server, sys.handlers[a.id]);
    }
  }

  lemma {:induction false} SavedFallInTheWindow(cfg: Config, k: nat, sys: System, actions: seq<Action>, secret: nat,
                                                t1: int, t2: int, all: set<Names>)
    requires ValidServer(cfg, sys.server) && Covered(cfg, secret, sys.handlers, t1, t2, all)
    requires StartsCovered(cfg, secret, actions, t1, t2, all)
    ensures SavedDuring(cfg, k, sys, actions, secret, t1, t2) <= SavedIn(cfg, k, sys, actions, secret, all)
    decreases |actions|
  {
    hide ValidServer, Do, SentBy, VerifyEpoch, InWindow;
    if actions != [] {
      var a := actions[0];
      assert a in actions;
      DoKeepsCovered(cfg, k, sys, a, secret, t1, t2, all);
      SavedFallInTheWindow(cfg, k, Do(cfg, k, sys, a), actions[1..], secret, t1, t2, all);
      if Saves(cfg, sys, a, secret) && t1 <= sys.handlers[a.id].event.now <= t2 {
        var e := sys.handlers[a.id].event;
        CheckedEpochIsInWindow(cfg, e.message.epoch, e.now, t1, t2);
      }
    }
  }

  lemma SavedForIsBounded(cfg: Config, k: nat, s: Server, actions: seq<Action>, secret: nat, names: Names)
    requires ValidServer(cfg, s) && s.stats == [] && k > 0
    ensures SavedFor(cfg, k, System(s, map[]), actions, secret, names) <= Limit(cfg.spamThreshold) + k - 1
  {
    hide ValidServer, Limit, DoAll, OwnersNullifier, SavedFor, Bounded, SharesFor;
    EmptyServerIsBounded(cfg, k, System(s, map[]));
    InterleavedSharesAreBounded(cfg, k, System(s, map[]), actions, names.epoch, OwnersNullifier(cfg, secret, names));
    SavedForAreShares(cfg, k, System(s, map[]), actions, secret, names);
  }

  lemma {:induction false} SavedInIsBounded(cfg: Config, k: nat, s: Server, actions: seq<Action>,
                                            secret: nat, all: set<Names>)
    requires ValidServer(cfg, s) && s.stats == [] && k > 0
    ensures SavedIn(cfg, k, System(s, map[]), actions, secret, all) <= (Limit(cfg.spamThreshold) + k - 1) * |all|
    decreases |all|
  {
    hide ValidServer, Limit, SavedIn, SavedFor;
    if all == {} {
      NothingSavedUnderNoName(cfg, k, System(s, map[]), actions, secret);
    } else {
      var names := Member(all);
      SavedInIsBounded(cfg, k, s, actions, secret, all - {names});
      SavedInOneMore(cfg, k, System(s, map[]), actions, secret, all, names);
      SavedForIsBounded(cfg, k, s, actions, secret, names);
      OneMoreTimes(Limit(cfg.spamThreshold) + k - 1, |all| - 1);
    }
  }

  /**
     Over every interleaving of k handlers, at most `Limit + k - 1` messages of the owner of one
     secret are accepted for each combination of epoch, proof epoch and identifier that the
     owner's messages name within the allowed delay of the stretch of the clock in which their
     epochs were checked.
   */
  lemma InterleavedRateIsBounded(cfg: Config, k: nat, s: Server, actions: seq<Action>, secret: nat, t1: int, t2: int,
                                 all: set<Names>)
    requires ValidServer(cfg, s) && s.stats == [] && k > 0
    requires StartsCovered(cfg, secret, actions, t1, t2, all)
    ensures SavedDuring(cfg, k, System(s, map[]), actions, secret, t1, t2)
            <= (Limit(cfg.spamThreshold) + k - 1) * |all|
  {
    hide *;
    NoHandlersCovered(cfg, secret, t1, t2, all);
    SavedFallInTheWindow(cfg, k, System(s, map[]), actions, secret, t1, t2, all);
    SavedInIsBounded(cfg, k, s, actions, secret, all);
  }

  lemma NoHandlersCovered(cfg: Config, secret: nat, t1: int, t2: int, all: set<Names>)
    ensures Covered(cfg, secret, map[], t1, t2, all)
  {
  }
}
