/**
 The rate that the epoch window and the spam limit together allow: how many messages of one
 user the server accepts while its clock moves between two readings.
 */
module RateBound {
  import opened Admission
  import opened AdmissionRuns
  import opened AdmissionRules

  lemma ClientEpochIsRounded(now: int)
    ensures RoundToEpoch(now) % MILLISECONDS_PER_EPOCH == 0
    ensures RoundToEpoch(now) <= now < RoundToEpoch(now) + MILLISECONDS_PER_EPOCH
  {
  }

  lemma RoundingIsMonotone(a: int, b: int)
    requires a <= b
    ensures RoundToEpoch(a) <= RoundToEpoch(b)
  {
  }

  /** What a message and its proof name: an epoch each, and an RLN identifier. */
  datatype Names = Names(epoch: int, proofEpoch: int, rlnIdentifier: nat)

  function NamesOf(e: Event): Names {
    Names(e.message.epoch, e.message.zkProof.epoch, e.message.zkProof.rlnIdentifier)
  }

  /** The nullifier of a secret's owner for the epoch and identifier that a proof names. */
  function OwnersNullifier(cfg: Config, secret: nat, names: Names): nat {
    cfg.rln.nullifier(cfg.rln.slope(secret, cfg.rln.genNullifier(names.proofEpoch, names.rlnIdentifier)))
  }

  /** The secret's owner made the proof of the message. */
  ghost predicate SentBy(cfg: Config, secret: nat, e: Event) {
    OpenedBy(cfg, e.message.zkProof, secret)
  }

  /** The run's last event was an accepted message of the secret's owner. */
  ghost predicate LastAccepted(cfg: Config, s: Server, events: seq<Event>, secret: nat)
    requires ValidServer(cfg, s) && events != []
  {
    LastOutcome(cfg, s, events).Accepted? && SentBy(cfg, secret, events[|events| - 1])
  }

  /** How many messages of the secret's owner a run accepts while the clock reads t1 to t2. */
  ghost function AcceptedDuring(cfg: Config, s: Server, events: seq<Event>, secret: nat, t1: int, t2: int): nat
    requires ValidServer(cfg, s)
    decreases |events|
  {
    if events == [] then 0
    else
      AcceptedDuring(cfg, s, events[..|events| - 1], secret, t1, t2)
      + (if LastAccepted(cfg, s, events, secret) && t1 <= events[|events| - 1].now <= t2 then 1 else 0)
  }

  /** How many messages of the secret's owner a run accepts under the given names. */
  ghost function AcceptedFor(cfg: Config, s: Server, events: seq<Event>, secret: nat, names: Names): nat
    requires ValidServer(cfg, s)
    decreases |events|
  {
    if events == [] then 0
    else
      AcceptedFor(cfg, s, events[..|events| - 1], secret, names)
      + (if LastAccepted(cfg, s, events, secret) && NamesOf(events[|events| - 1]) == names then 1 else 0)
  }

  lemma AcceptedUnderOwnersNullifier(cfg: Config, s: Server, events: seq<Event>, secret: nat)
    requires ValidServer(cfg, s) && events != [] && LastAccepted(cfg, s, events, secret)
    ensures NullifierOf(events[|events| - 1]) == OwnersNullifier(cfg, secret, NamesOf(events[|events| - 1]))
  {
    hide ValidServer, Run, OpenedBy, IsZkProofValid, VerifyEpoch, IsSpam, RecoverSecret, Ban, StoredRoot;
    var before, m := Run(cfg, s, events[..|events| - 1]), events[|events| - 1].message;
    NullifierIsTheOwners(cfg, m.zkProof, StoredRoot(cfg, before).value, secret);
  }

  lemma {:induction false} AcceptedForAreSaved(cfg: Config, s: Server, events: seq<Event>, secret: nat, names: Names)
    requires ValidServer(cfg, s) && s.stats == []
    ensures AcceptedFor(cfg, s, events, secret, names)
            <= |SharesFor(Run(cfg, s, events).stats, names.epoch, OwnersNullifier(cfg, secret, names))|
    decreases |events|
  {
    hide Step, ValidServer, OwnersNullifier, SentBy;
    if events != [] {
      var earlier, last := events[..|events| - 1], events[|events| - 1];
      AcceptedForAreSaved(cfg, s, earlier, secret, names);
      StepSavesAtMostItsShare(cfg, Run(cfg, s, earlier), last);
      SharesForAfterSave(Run(cfg, s, earlier).stats, ShareOf(last.message), names.epoch,
                         OwnersNullifier(cfg, secret, names));
      if LastAccepted(cfg, s, events, secret) {
        AcceptedUnderOwnersNullifier(cfg, s, events, secret);
      }
    }
  }

  /** How many messages of the secret's owner a run accepts under any of the given names. */
  ghost function AcceptedIn(cfg: Config, s: Server, events: seq<Event>, secret: nat, all: set<Names>): nat
    requires ValidServer(cfg, s)
    decreases |events|
  {
    if events == [] then 0
    else
      AcceptedIn(cfg, s, events[..|events| - 1], secret, all)
      + (if LastAccepted(cfg, s, events, secret) && NamesOf(events[|events| - 1]) in all then 1 else 0)
  }

  lemma {:induction false} AcceptedInOneMore(cfg: Config, s: Server, events: seq<Event>, secret: nat,
                                             all: set<Names>, names: Names)
    requires ValidServer(cfg, s) && names in all
    ensures AcceptedIn(cfg, s, events, secret, all)
            == AcceptedIn(cfg, s, events, secret, all - {names}) + AcceptedFor(cfg, s, events, secret, names)
    decreases |events|
  {
    hide LastAccepted, ValidServer;
    if events != [] {
      AcceptedInOneMore(cfg, s, events[..|events| - 1], secret, all, names);
    }
  }

  lemma {:induction false} NothingAcceptedUnderNoName(cfg: Config, s: Server, events: seq<Event>, secret: nat)
    requires ValidServer(cfg, s)
    ensures AcceptedIn(cfg, s, events, secret, {}) == 0
    decreases |events|
  {
    if events != [] {
      NothingAcceptedUnderNoName(cfg, s, events[..|events| - 1], secret);
    }
  }

  lemma Member<T>(s: set<T>) returns (x: T)
    requires s != {}
    ensures x in s
  {
    x :| x in s;
  }

  lemma OneMoreTimes(l: nat, n: nat)
    ensures l * (n + 1) == l * n + l
  {
  }

  lemma {:induction false} AcceptedInIsBounded(cfg: Config, s: Server, events: seq<Event>, secret: nat,
                                               all: set<Names>)
    requires ValidServer(cfg, s) && s.stats == []
    ensures AcceptedIn(cfg, s, events, secret, all) <= Limit(cfg.spamThreshold) * |all|
    decreases |all|
  {
    hide ValidServer, Limit, Run, AcceptedIn, AcceptedFor, WithinLimit, SharesFor;
    if all == {} {
      NothingAcceptedUnderNoName(cfg, s, events, secret);
    } else {
      var names := Member(all);
      AcceptedInIsBounded(cfg, s, events, secret, all - {names});
      AcceptedInOneMore(cfg, s, events, secret, all, names);
      AcceptedForIsBounded(cfg, s, events, secret, names);
      OneMoreTimes(Limit(cfg.spamThreshold), |all| - 1);
    }
  }

  /** At most `Limit` messages of one owner are accepted for an epoch, proved for one epoch and identifier. */
  lemma AcceptedForIsBounded(cfg: Config, s: Server, events: seq<Event>, secret: nat, names: Names)
    requires ValidServer(cfg, s) && s.stats == []
    ensures AcceptedFor(cfg, s, events, secret, names) <= Limit(cfg.spamThreshold)
  {
    hide ValidServer, Limit, Run, OwnersNullifier;
    NoSharesKeepInv(cfg, OwnersNullifier(cfg, secret, names));
    RunKeepsWithinLimit(cfg, s, events);
    AcceptedForAreSaved(cfg, s, events, secret, names);
  }

  /** The epoch passes the check at some time while the server's clock moves from t1 to t2. */
  predicate InWindow(cfg: Config, t1: int, t2: int, epoch: int) {
    RoundToEpoch(t1) - 1000 * cfg.allowedDelay < epoch < RoundToEpoch(t2) + 1000 * cfg.allowedDelay
  }

  lemma CheckedEpochIsInWindow(cfg: Config, epoch: int, now: int, t1: int, t2: int)
    requires VerifyEpoch(epoch, now, cfg.allowedDelay) && t1 <= now <= t2
    ensures InWindow(cfg, t1, t2, epoch)
  {
    hide VerifyEpoch, RoundToEpoch;
    AcceptedEpochWindow(epoch, now, cfg.allowedDelay);
    RoundingIsMonotone(t1, now);
    RoundingIsMonotone(now, t2);
  }

  lemma AcceptedPassedEpochCheck(cfg: Config, s: Server, event: Event)
    requires ValidServer(cfg, s) && Step(cfg, s, event).1.Accepted?
    ensures VerifyEpoch(event.message.epoch, event.now, cfg.allowedDelay)
  {
    hide VerifyEpoch, IsSpam, IsZkProofValid, StoredRoot, RecoverSecret, Ban;
  }

  lemma {:induction false} AcceptedFallInTheWindow(cfg: Config, s: Server, events: seq<Event>, secret: nat,
                                                   t1: int, t2: int, all: set<Names>)
    requires ValidServer(cfg, s)
    requires forall e | e in events && SentBy(cfg, secret, e) && InWindow(cfg, t1, t2, e.message.epoch) ::
               NamesOf(e) in all
    ensures AcceptedDuring(cfg, s, events, secret, t1, t2) <= AcceptedIn(cfg, s, events, secret, all)
    decreases |events|
  {
    hide ValidServer, SentBy, Step, VerifyEpoch, InWindow;
    if events != [] {
      var earlier, last := events[..|events| - 1], events[|events| - 1];
      AcceptedFallInTheWindow(cfg, s, earlier, secret, t1, t2, all);
      assert last in events;
      if LastAccepted(cfg, s, events, secret) && t1 <= last.now <= t2 {
        AcceptedPassedEpochCheck(cfg, Run(cfg, s, earlier), last);
        CheckedEpochIsInWindow(cfg, last.message.epoch, last.now, t1, t2);
      }
    }
  }

  /**
     While the server's clock moves from t1 to t2, a run accepts from the owner of one secret
     at most `Limit` messages for each combination of epoch, proof epoch and identifier that the
     owner's messages name within the allowed delay of that stretch.
   */
  lemma AcceptedRateIsBounded(cfg: Config, s: Server, events: seq<Event>, secret: nat, t1: int, t2: int,
                              all: set<Names>)
    requires ValidServer(cfg, s) && s.stats == []
    requires forall e | e in events && SentBy(cfg, secret, e) && InWindow(cfg, t1, t2, e.message.epoch) ::
               NamesOf(e) in all
    ensures AcceptedDuring(cfg, s, events, secret, t1, t2) <= Limit(cfg.spamThreshold) * |all|
  {
    hide *;
    AcceptedFallInTheWindow(cfg, s, events, secret, t1, t2, all);
    AcceptedInIsBounded(cfg, s, events, secret, all);
  }

  /** The message names the epoch and the RLN identifier that its proof was made for, as clients build it. */
  predicate NamesItsProof(cfg: Config, e: Event) {
    e.message.epoch == e.message.zkProof.epoch && e.message.zkProof.rlnIdentifier == cfg.rlnIdentifier
  }

  /** The owner's messages name what they were proved for, and so epochs alone tell them apart. */
  lemma OneNameForEachEpoch(cfg: Config, s: Server, events: seq<Event>, secret: nat, t1: int, t2: int,
                            epochs: set<int>)
    requires ValidServer(cfg, s) && s.stats == []
    requires forall e | e in events && SentBy(cfg, secret, e) :: NamesItsProof(cfg, e)
    requires forall e | e in events && SentBy(cfg, secret, e) && InWindow(cfg, t1, t2, e.message.epoch) ::
               e.message.epoch in epochs
    ensures AcceptedDuring(cfg, s, events, secret, t1, t2) <= Limit(cfg.spamThreshold) * |epochs|
  {
    hide AcceptedDuring, ValidServer, Limit, SentBy, InWindow;
    var all := NamesForEpochs(cfg, epochs);
    AcceptedRateIsBounded(cfg, s, events, secret, t1, t2, all);
    EachEpochOneName(cfg, epochs);
  }

  function NamesForEpochs(cfg: Config, epochs: set<int>): set<Names> {
    set e | e in epochs :: Names(e, e, cfg.rlnIdentifier)
  }

  lemma {:induction false} EachEpochOneName(cfg: Config, epochs: set<int>)
    ensures |NamesForEpochs(cfg, epochs)| == |epochs|
    decreases |epochs|
  {
    if epochs != {} {
      var e := Member(epochs);
      EachEpochOneName(cfg, epochs - {e});
      assert NamesForEpochs(cfg, epochs) == NamesForEpochs(cfg, epochs - {e}) + {Names(e, e, cfg.rlnIdentifier)};
    }
  }

  /** The rounded epochs of a window, which are all that clients compute. */
  ghost function RoundedEpochs(cfg: Config, t1: int, t2: int): set<int> {
    set e | RoundToEpoch(t1) - 1000 * cfg.allowedDelay < e < RoundToEpoch(t2) + 1000 * cfg.allowedDelay
            && e % MILLISECONDS_PER_EPOCH == 0
  }

  lemma {:induction false} MultiplesAreCounted(lo: int, hi: int, epochs: set<int>)
    requires forall e :: e in epochs <==> lo * MILLISECONDS_PER_EPOCH <= e <= hi * MILLISECONDS_PER_EPOCH
                                          && e % MILLISECONDS_PER_EPOCH == 0
    ensures |epochs| == if hi < lo then 0 else hi - lo + 1
    decreases hi - lo
  {
    var top := hi * MILLISECONDS_PER_EPOCH;
    if hi < lo {
      forall e ensures e !in epochs { }
      assert |epochs| == 0 by { assert epochs == {}; }
    } else {
      assert top in epochs;
      forall e ensures e in epochs - {top} <==>
                       lo * MILLISECONDS_PER_EPOCH <= e <= (hi - 1) * MILLISECONDS_PER_EPOCH
                       && e % MILLISECONDS_PER_EPOCH == 0
      {
      }
      MultiplesAreCounted(lo, hi - 1, epochs - {top});
    }
  }

  /** With rounded epochs, the bound is the limit times the number of epochs in the window. */
  lemma RoundedRateIsBounded(cfg: Config, s: Server, events: seq<Event>, secret: nat, t1: int, t2: int)
    requires ValidServer(cfg, s) && s.stats == []
    requires forall e | e in events && SentBy(cfg, secret, e) ::
               NamesItsProof(cfg, e) && e.message.epoch % MILLISECONDS_PER_EPOCH == 0
    ensures var low := RoundToEpoch(t1) - 1000 * cfg.allowedDelay;
            var high := RoundToEpoch(t2) + 1000 * cfg.allowedDelay;
            var count := (high - 1) / MILLISECONDS_PER_EPOCH - low / MILLISECONDS_PER_EPOCH;
            AcceptedDuring(cfg, s, events, secret, t1, t2)
            <= Limit(cfg.spamThreshold) * (if count < 0 then 0 else count)
  {
    hide AcceptedDuring, ValidServer, RoundToEpoch, Limit, SentBy;
    var low, high := RoundToEpoch(t1) - 1000 * cfg.allowedDelay, RoundToEpoch(t2) + 1000 * cfg.allowedDelay;
    OneNameForEachEpoch(cfg, s, events, secret, t1, t2, RoundedEpochs(cfg, t1, t2));
    MultiplesAreCounted(low / MILLISECONDS_PER_EPOCH + 1, (high - 1) / MILLISECONDS_PER_EPOCH,
                        RoundedEpochs(cfg, t1, t2));
  }
}
