/**
 What the admission rules guarantee to the history synchronisation. The epoch check bounds
 the drift between epoch and timestamp, but it also lets epochs ahead of the server's
 clock in, and those can make a page lose a message; and a page of honest messages within
 one epoch keeps the loop from ending.
 */
module AdmittedHistory {
  import opened Admission
  import opened AdmissionRuns
  import opened HistorySync
  import opened HistoryRuns

  /** The timestamp of a message is read at most so many milliseconds after its epoch check. */
  ghost predicate HandledWithin(events: seq<Event>, handling: nat) {
    forall e | e in events :: e.now <= e.timestamp <= e.now + handling
  }

  /** Clients round their clock down, and their clocks are not ahead of the server's. */
  ghost predicate EpochsPassed(events: seq<Event>) {
    forall e | e in events :: e.message.epoch < e.timestamp
  }

  ghost predicate FreshIds(events: seq<Event>) {
    forall i, j | 0 <= i < j < |events| :: events[i].uuid != events[j].uuid
  }

  /** The widest lag of an admitted epoch: the allowed delay, one rounding, and the handling time. */
  function DriftBound(cfg: Config, handling: nat): nat {
    if cfg.allowedDelay < 0 then 0 else 1000 * cfg.allowedDelay + MILLISECONDS_PER_EPOCH + handling
  }

  lemma AdmittedEpochLagsLittle(cfg: Config, epoch: int, now: int, timestamp: int, handling: nat)
    requires VerifyEpoch(epoch, now, cfg.allowedDelay) && now <= timestamp <= now + handling
    ensures cfg.allowedDelay >= 0 && timestamp - DriftBound(cfg, handling) <= epoch
  {
    AcceptedEpochWindow(epoch, now, cfg.allowedDelay);
    assert now - MILLISECONDS_PER_EPOCH < RoundToEpoch(now) <= now;
  }

  /** Every stored message is one of the run, as it was persisted; identifiers stay distinct. */
  lemma {:induction false} StoredMessagesWereAdmitted(cfg: Config, s: Server, events: seq<Event>)
    requires ValidServer(cfg, s) && s.messages == []
    ensures forall m | m in Run(cfg, s, events).messages ::
              exists e :: e in events && m == Persisted(e) && VerifyEpoch(e.message.epoch, e.now, cfg.allowedDelay)
    ensures FreshIds(events) ==> Distinct(Run(cfg, s, events).messages)
    decreases |events|
  {
    hide ValidServer, VerifyEpoch, StoredRoot, IsSpam, IsZkProofValid, RecoverSecret;
    if events != [] {
      var before, e := events[..|events| - 1], events[|events| - 1];
      StoredMessagesWereAdmitted(cfg, s, before);
      StepStoresAtMostItsMessage(cfg, Run(cfg, s, before), e);
      if FreshIds(events) {
        forall m | m in Run(cfg, s, before).messages ensures m != Persisted(e) {
          var earlier :| earlier in before && m == Persisted(earlier);
          var i :| 0 <= i < |before| && events[i] == earlier;
          assert events[i].uuid != events[|events| - 1].uuid;
        }
        assert FreshIds(before);
        DistinctAppend(Run(cfg, s, before).messages, Persisted(e));
      }
    }
  }

  lemma StepStoresAtMostItsMessage(cfg: Config, s: Server, e: Event)
    requires ValidServer(cfg, s)
    ensures Step(cfg, s, e).0.messages == s.messages
            || (Step(cfg, s, e).0.messages == s.messages + [Persisted(e)]
                && VerifyEpoch(e.message.epoch, e.now, cfg.allowedDelay))
  {
    hide VerifyEpoch, IsSpam, IsZkProofValid, RecoverSecret, StoredRoot, ValidServer, SharesFor;
    forall secret ensures Ban(cfg, s, secret).0.messages == s.messages {
      BanKeepsMessages(cfg, s, secret);
    }
  }

  lemma BanKeepsMessages(cfg: Config, s: Server, secret: nat)
    requires ValidServer(cfg, s)
    ensures Ban(cfg, s, secret).0.messages == s.messages && !Ban(cfg, s, secret).1.Accepted?
  {
    hide cfg.tree.Shape, cfg.tree.SetPath;
  }

  /**
     The stored messages of every run drift by at most the bound, and none overtakes another if
     all epochs had passed.
     */
  lemma AdmittedMessagesDriftLittle(cfg: Config, s: Server, events: seq<Event>, handling: nat)
    requires ValidServer(cfg, s) && s.messages == [] && HandledWithin(events, handling)
    ensures DriftAtMost(Run(cfg, s, events).messages, DriftBound(cfg, handling))
    ensures EpochsPassed(events) ==> NoOvertaking(Run(cfg, s, events).messages)
  {
    hide ValidServer, VerifyEpoch, Run;
    StoredMessagesWereAdmitted(cfg, s, events);
    forall m | m in Run(cfg, s, events).messages
      ensures m.timestamp - DriftBound(cfg, handling) <= m.epoch
      ensures EpochsPassed(events) ==> m.epoch < m.timestamp
    {
      var e :| e in events && m == Persisted(e) && VerifyEpoch(e.message.epoch, e.now, cfg.allowedDelay);
      AdmittedEpochLagsLittle(cfg, e.message.epoch, e.now, e.timestamp, handling);
    }
  }

  /**
     The history of any run with passed epochs can be synchronised completely, in at most one
     request per millisecond, as long as no stretch as long as the drift fills a page.
   */
  lemma AdmittedHistoryIsSynchronised(cfg: Config, s: Server, events: seq<Event>, handling: nat,
                                      limit: nat, from: int, to: int, rounds: seq<Round>)
    requires ValidServer(cfg, s) && s.messages == []
    requires HandledWithin(events, handling) && EpochsPassed(events) && FreshIds(events)
    requires limit > 0 && from < to && Sparse(Run(cfg, s, events).messages, DriftBound(cfg, handling), limit)
    requires IsRun(Run(cfg, s, events).messages, limit, from, to, rounds)
    ensures |rounds| <= to - from
    ensures Ended(limit, from, to, rounds) ==> FetchedAll(Run(cfg, s, events).messages, from, to, rounds)
  {
    hide *;
    var store := Run(cfg, s, events).messages;
    StoredMessagesWereAdmitted(cfg, s, events);
    AdmittedMessagesDriftLittle(cfg, s, events, handling);
    SparseStoreIsNowhereCrowded(store, limit, DriftBound(cfg, handling), from, to);
    LoopEndsExactlyWithoutCrowding(store, limit, from, to);
    if Ended(limit, from, to, rounds) {
      EndedRunIsComplete(store, limit, from, to, rounds);
    }
  }

  // ----- what the epoch check does not exclude -----

  function Stored(events: seq<Event>): (store: seq<Message>)
    ensures |store| == |events|
    ensures forall i | 0 <= i < |store| :: store[i] == Persisted(events[i])
  {
    seq(|events|, i requires 0 <= i < |events| => Persisted(events[i]))
  }

  /** Messages as they arrive, each checked and stored at its clock reading. */
  function Arriving(messages: seq<RLNMessage>, clock: seq<int>): (events: seq<Event>)
    requires |messages| == |clock|
    ensures |events| == |clock| && FreshIds(events) && HandledWithin(events, 0)
    ensures forall i | 0 <= i < |events| ::
              events[i].message == messages[i] && events[i].now == events[i].timestamp == clock[i]
  {
    seq(|clock|, i requires 0 <= i < |clock| => Event(messages[i], clock[i], clock[i], i))
  }

  ghost predicate PassEpochCheck(cfg: Config, events: seq<Event>) {
    forall e | e in events :: VerifyEpoch(e.message.epoch, e.now, cfg.allowedDelay)
  }

  function SharesOf(messages: seq<RLNMessage>): (shares: seq<Share>)
    ensures |shares| == |messages|
    ensures forall i | 0 <= i < |shares| :: shares[i] == ShareOf(messages[i])
  {
    seq(|messages|, i requires 0 <= i < |messages| => ShareOf(messages[i]))
  }

  /**
     Messages that a server without records lets in, whatever the order: each proved against
     its root, no share twice, and for no user and epoch more than the limit.
   */
  ghost predicate Admissible(cfg: Config, s: Server, messages: seq<RLNMessage>) {
    && ValidServer(cfg, s) && s.slots != [] && s.stats == [] && s.messages == []
    && (forall m | m in messages :: IsZkProofValid(cfg, m.zkProof, StoredRoot(cfg, s).value))
    && WithinLimit(cfg, SharesOf(messages))
  }

  /** What the server has after it let the first messages in. */
  ghost predicate LetIn(s: Server, now: Server, events: seq<Event>, messages: seq<RLNMessage>) {
    && now.nodes == s.nodes && now.slots == s.slots
    && now.stats == SharesOf(messages) && now.messages == Stored(events)
  }

  lemma StoredOneMore(events: seq<Event>, e: Event)
    ensures Stored(events + [e]) == Stored(events) + [Persisted(e)]
  {
  }

  lemma SharesOneMore(messages: seq<RLNMessage>, m: RLNMessage)
    ensures SharesOf(messages + [m]) == SharesOf(messages) + [ShareOf(m)]
  {
  }

  lemma {:induction false} FewerStayWithinLimit(cfg: Config, stats: seq<Share>, n: nat)
    requires n <= |stats| && WithinLimit(cfg, stats)
    ensures WithinLimit(cfg, stats[..n])
    decreases |stats|
  {
    hide SharesFor, Limit;
    if n == |stats| {
      assert stats[..n] == stats;
    } else {
      var rest := stats[..|stats| - 1];
      assert stats == rest + [stats[|stats| - 1]] && rest[..n] == stats[..n];
      forall epoch, nullifier ensures |SharesFor(rest, epoch, nullifier)| <= |SharesFor(stats, epoch, nullifier)| {
        SharesForAfterSave(rest, stats[|stats| - 1], epoch, nullifier);
      }
      FewerStayWithinLimit(cfg, rest, n);
    }
  }

  lemma NewShareIsNew(stats: seq<Share>, share: Share)
    requires NoRepeats(stats + [share])
    ensures share !in stats
  {
    forall i | 0 <= i < |stats| ensures stats[i] != share {
      assert (stats + [share])[i] == stats[i] && (stats + [share])[|stats|] == share;
    }
  }

  /** One more admissible message is accepted. */
  lemma NextIsLetIn(cfg: Config, s: Server, now: Server, events: seq<Event>, messages: seq<RLNMessage>, e: Event)
    requires ValidServer(cfg, s) && s.slots != [] && ValidServer(cfg, now) && LetIn(s, now, events, messages)
    requires VerifyEpoch(e.message.epoch, e.now, cfg.allowedDelay)
    requires IsZkProofValid(cfg, e.message.zkProof, StoredRoot(cfg, s).value)
    requires WithinLimit(cfg, SharesOf(messages + [e.message]))
    ensures LetIn(s, Step(cfg, now, e).0, events + [e], messages + [e.message])
  {
    hide ValidServer, VerifyEpoch, IsZkProofValid, SharesFor, Limit, IsSpam, Ban, StoredRoot, RecoverSecret, SharesOf,
         Stored;
    var share := ShareOf(e.message);
    SameTreeSameRoot(cfg, s, now);
    SharesOneMore(messages, e.message);
    StoredOneMore(events, e);
    SharesForAfterSave(now.stats, share, share.epoch, share.nullifier);
    SpamMeansLimitReached(now.stats, share.epoch, share.nullifier, cfg.spamThreshold);
    NewShareIsNew(now.stats, share);
  }

  /** The server's run over admissible messages accepts and stores all of them. */
  lemma {:induction false} RunLetsAllIn(cfg: Config, s: Server, messages: seq<RLNMessage>, clock: seq<int>, n: nat)
    requires |messages| == |clock| && n <= |messages| && Admissible(cfg, s, messages)
    requires PassEpochCheck(cfg, Arriving(messages, clock))
    ensures LetIn(s, Run(cfg, s, Arriving(messages, clock)[..n]), Arriving(messages, clock)[..n], messages[..n])
    decreases n
  {
    hide ValidServer, VerifyEpoch, IsZkProofValid, Step, LetIn, WithinLimit, StoredRoot;
    var events := Arriving(messages, clock);
    if n == 0 {
      NobodyIsLetIn(s);
      assert events[..0] == [] && messages[..0] == [];
    } else {
      RunLetsAllIn(cfg, s, messages, clock, n - 1);
      var e := events[n - 1];
      assert e in events && messages[n - 1] in messages && e.message == messages[n - 1];
      assert events[..n] == events[..n - 1] + [e] && messages[..n] == messages[..n - 1] + [e.message];
      assert SharesOf(messages[..n]) == SharesOf(messages)[..n];
      FewerStayWithinLimit(cfg, SharesOf(messages), n);
      NextIsLetIn(cfg, s, Run(cfg, s, events[..n - 1]), events[..n - 1], messages[..n - 1], e);
      assert events[..n][..n - 1] == events[..n - 1];
    }
  }

  lemma NobodyIsLetIn(s: Server)
    requires s.stats == [] && s.messages == []
    ensures LetIn(s, s, [], [])
  {
  }

  lemma AllAreStored(cfg: Config, s: Server, messages: seq<RLNMessage>, clock: seq<int>)
    requires |messages| == |clock| && Admissible(cfg, s, messages)
    requires PassEpochCheck(cfg, Arriving(messages, clock))
    ensures Run(cfg, s, Arriving(messages, clock)).messages == Stored(Arriving(messages, clock))
  {
    hide ValidServer, VerifyEpoch, IsZkProofValid, Run, WithinLimit, StoredRoot;
    var events := Arriving(messages, clock);
    RunLetsAllIn(cfg, s, messages, clock, |messages|);
    assert events[..|messages|] == events && messages[..|messages|] == messages;
  }

  lemma StoredAreDistinct(events: seq<Event>)
    requires FreshIds(events)
    ensures Distinct(Stored(events))
  {
  }

  /** Messages of one epoch that is still to come: whichever the page leaves out is dropped. */
  lemma EpochToComeDrops(store: seq<Message>, limit: nat, epoch: int, from: int, to: int)
    requires Distinct(store) && 0 < limit < |store|
    requires forall m | m in store :: m.epoch == epoch && InRange(m, from, to) && m.timestamp <= epoch
    ensures Drops(store, from, to, limit, store[0], store[1])
  {
    assert Before(store, from, to, epoch) == {};
    DistinctFitInSet(store, UpTo(store, from, to, epoch));
    assert store[0] != store[1];
  }

  /** A loop up to the epoch to come ends after its first page, without one of the messages. */
  lemma EpochToComeIsLost(store: seq<Message>, limit: nat, epoch: int, from: int) returns (rounds: seq<Round>)
    requires Distinct(store) && 0 < limit < |store| && from < epoch
    requires forall m | m in store :: m.epoch == epoch && InRange(m, from, epoch)
    ensures IsRun(store, limit, from, epoch, rounds) && Ended(limit, from, epoch, rounds)
    ensures !FetchedAll(store, from, epoch, rounds)
  {
    hide IsPage, IsRun, Next, Drops, CoversTheRest;
    EpochToComeDrops(store, limit, epoch, from, epoch);
    var page := DroppingPage(store, from, epoch, limit, store[0], store[1]);
    NoRounds(store, limit, from, epoch);
    LastRound(store, limit, from, epoch, [], Round(from, page));
    rounds := [] + [Round(from, page)];
    NextTellsTheEnd(limit, from, epoch, rounds);
    assert store[1] !in Fetched(rounds) && InRange(store[1], from, epoch);
  }

  lemma WithinEpoch(epoch: int, now: int)
    requires epoch % MILLISECONDS_PER_EPOCH == 0 && epoch <= now < epoch + MILLISECONDS_PER_EPOCH
    ensures RoundToEpoch(now) == epoch
  {
  }

  /**
     For every page size: with a delay of more than one epoch, the handler admits and stores
     more than a page of messages whose epoch is the next one, from users within their limits,
     whenever in the current epoch they arrive; and the loop that synchronises the current
     epoch then ends without one of them.
   */
  lemma EpochCheckAdmitsLoss(cfg: Config, s: Server, messages: seq<RLNMessage>, epoch: int, clock: seq<int>, limit: nat)
    returns (rounds: seq<Round>)
    requires Admissible(cfg, s, messages) && |messages| == |clock| > limit > 0
    requires cfg.allowedDelay > 10 && epoch % MILLISECONDS_PER_EPOCH == 0
    requires forall m | m in messages :: m.epoch == epoch + MILLISECONDS_PER_EPOCH
    requires forall t | t in clock :: epoch <= t < epoch + MILLISECONDS_PER_EPOCH
    ensures
      var store, to := Run(cfg, s, Arriving(messages, clock)).messages, epoch + MILLISECONDS_PER_EPOCH;
      && store == Stored(Arriving(messages, clock))
      && IsRun(store, limit, epoch, to, rounds) && Ended(limit, epoch, to, rounds)
      && !FetchedAll(store, epoch, to, rounds)
  {
    hide IsRun, VerifyEpoch, RoundToEpoch, Admissible, Run, Ended, FetchedAll;
    var events, to := Arriving(messages, clock), epoch + MILLISECONDS_PER_EPOCH;
    forall i | 0 <= i < |events|
      ensures VerifyEpoch(events[i].message.epoch, events[i].now, cfg.allowedDelay)
      ensures events[i].message.epoch == to && epoch <= events[i].timestamp < to
    {
      assert clock[i] in clock && messages[i] in messages;
      WithinEpoch(epoch, clock[i]);
      AcceptedEpochWindow(to, clock[i], cfg.allowedDelay);
    }
    AllAreStored(cfg, s, messages, clock);
    var store := Stored(events);
    StoredAreDistinct(events);
    forall m | m in store ensures m.epoch == to && InRange(m, epoch, to) {
      var i :| 0 <= i < |store| && store[i] == m;
    }
    rounds := EpochToComeIsLost(store, limit, to, epoch);
  }

  /**
     Nothing dishonest is needed to keep the loop from ending: users within their limits, a
     page of messages of one epoch altogether, each with its client's rounded clock and stored
     after the epoch's first millisecond, crowd the millisecond after its start, and a loop
     from there on or before has runs of every length.
   */
  lemma HonestEpochCrowds(cfg: Config, s: Server, messages: seq<RLNMessage>, epoch: int, clock: seq<int>,
                          from: int, to: int, n: nat)
    returns (rounds: seq<Round>)
    requires Admissible(cfg, s, messages) && |messages| == |clock| > 0
    requires cfg.allowedDelay > 0 && epoch % MILLISECONDS_PER_EPOCH == 0 && from <= epoch + 1
    requires forall t | t in clock :: epoch < t < epoch + MILLISECONDS_PER_EPOCH && t < to
    requires forall i | 0 <= i < |messages| :: messages[i].epoch == RoundToEpoch(clock[i])
    ensures
      var store := Run(cfg, s, Arriving(messages, clock)).messages;
      && store == Stored(Arriving(messages, clock))
      && Crowded(store, |messages|, epoch + 1, to)
      && IsRun(store, |messages|, from, to, rounds) && |rounds| == n
  {
    hide IsPage, IsRun, VerifyEpoch, RoundToEpoch, Admissible, Run;
    var events := Arriving(messages, clock);
    forall i | 0 <= i < |events|
      ensures VerifyEpoch(events[i].message.epoch, events[i].now, cfg.allowedDelay)
      ensures events[i].message.epoch == epoch && epoch < events[i].timestamp < to
    {
      assert clock[i] in clock;
      WithinEpoch(epoch, clock[i]);
      AcceptedEpochWindow(epoch, clock[i], cfg.allowedDelay);
    }
    AllAreStored(cfg, s, messages, clock);
    var store := Stored(events);
    StoredAreDistinct(events);
    forall x | x in store ensures x in Crowd(store, epoch + 1, to) {
      var i :| 0 <= i < |store| && store[i] == x;
    }
    DistinctFitInSet(store, Crowd(store, epoch + 1, to));
    assert clock[0] in clock;
    rounds := HeldBackRun(store, |messages|, from, to, epoch + 1, n);
  }
}
