/**
 Runs of the client's synchronisation loop over a store that does not change meanwhile:
 when the loop ends, and what it has fetched by then.
 */
module HistoryRuns {
  import opened Prelude
  import opened Admission
  import opened HistorySync

  /** One answered request: the position it asked from, and the page. */
  datatype Round = Round(from: int, page: seq<Message>)

  /** The upper bound that a reply reports. */
  function ReturnedTo(page: seq<Message>, to: int): int {
    if page == [] then to else LastEpoch(page)
  }

  /** Where the loop continues; it stops after a page that is not full. */
  function Next(limit: nat, from: int, to: int, rounds: seq<Round>): Option<int> {
    if rounds == [] then Some(from)
    else
      var page := rounds[|rounds| - 1].page;
      if |page| == limit then Some(ReturnedTo(page, to) + 1) else None
  }

  /** The answered requests of a loop: a request with an empty range is refused. */
  ghost predicate IsRun(store: seq<Message>, limit: nat, from: int, to: int, rounds: seq<Round>)
    decreases |rounds|
  {
    rounds != [] ==>
      var before, last := rounds[..|rounds| - 1], rounds[|rounds| - 1];
      && IsRun(store, limit, from, to, before)
      && Next(limit, from, to, before) == Some(last.from)
      && last.from < to
      && IsPage(store, last.from, to, limit, last.page)
  }

  /** The loop is over: its last page was not full, or its next request is refused. */
  ghost predicate Ended(limit: nat, from: int, to: int, rounds: seq<Round>) {
    match Next(limit, from, to, rounds)
    case None => true
    case Some(position) => position >= to
  }

  lemma NextTellsTheEnd(limit: nat, from: int, to: int, rounds: seq<Round>)
    ensures Ended(limit, from, to, rounds) <==>
            Next(limit, from, to, rounds).None? || Next(limit, from, to, rounds).value >= to
  {
  }

  ghost function Fetched(rounds: seq<Round>): seq<Message> {
    if rounds == [] then [] else Fetched(rounds[..|rounds| - 1]) + rounds[|rounds| - 1].page
  }

  /** Every message of the range has been fetched. */
  ghost predicate FetchedAll(store: seq<Message>, from: int, to: int, rounds: seq<Round>) {
    forall m | m in store && InRange(m, from, to) :: m in Fetched(rounds)
  }

  lemma NoRounds(store: seq<Message>, limit: nat, from: int, to: int)
    ensures IsRun(store, limit, from, to, []) && Next(limit, from, to, []) == Some(from) && Fetched([]) == []
  {
  }

  lemma LastRound(store: seq<Message>, limit: nat, from: int, to: int, rounds: seq<Round>, round: Round)
    requires IsRun(store, limit, from, to, rounds) && Next(limit, from, to, rounds) == Some(round.from)
    requires round.from < to && IsPage(store, round.from, to, limit, round.page)
    ensures IsRun(store, limit, from, to, rounds + [round])
    ensures Fetched(rounds + [round]) == Fetched(rounds) + round.page
    ensures Next(limit, from, to, rounds + [round])
            == if |round.page| == limit then Some(ReturnedTo(round.page, to) + 1) else None
  {
    assert (rounds + [round])[..|rounds|] == rounds;
  }

  // ----- completeness -----

  /** Whatever was not fetched so far still lies ahead. */
  lemma {:induction false} NothingIsLeftBehind(store: seq<Message>, limit: nat, from: int, to: int,
                                               rounds: seq<Round>, m: Message)
    requires NoOvertaking(store) && limit > 0
    requires IsRun(store, limit, from, to, rounds)
    requires m in store && InRange(m, from, to)
    ensures m in Fetched(rounds)
            || (Next(limit, from, to, rounds).Some? && Next(limit, from, to, rounds).value <= m.timestamp)
    decreases |rounds|
  {
    if rounds != [] {
      var before, last := rounds[..|rounds| - 1], rounds[|rounds| - 1];
      NothingIsLeftBehind(store, limit, from, to, before, m);
      if m !in Fetched(rounds) {
        PageContents(store, last.from, to, limit, last.page, m);
        NoOvertakingCoversTheRest(store, last.from, to, limit, last.page);
      }
    }
  }

  lemma {:induction false} OnlyStoredMessagesAreFetched(store: seq<Message>, limit: nat, from: int, to: int,
                                                        rounds: seq<Round>, m: Message)
    requires IsRun(store, limit, from, to, rounds) && m in Fetched(rounds)
    ensures m in store && m.timestamp < to
    decreases |rounds|
  {
    var before, last := rounds[..|rounds| - 1], rounds[|rounds| - 1];
    if m in last.page {
      PageContents(store, last.from, to, limit, last.page, m);
    } else {
      OnlyStoredMessagesAreFetched(store, limit, from, to, before, m);
    }
  }

  /** While positions do not go back, whatever is fetched is from the range. */
  lemma {:induction false} FetchedAreOfTheRange(store: seq<Message>, limit: nat, from: int, to: int,
                                                rounds: seq<Round>, m: Message)
    requires IsRun(store, limit, from, to, rounds) && m in Fetched(rounds)
    requires forall round | round in rounds :: from <= round.from
    ensures InRange(m, from, to)
    decreases |rounds|
  {
    var last, before := rounds[|rounds| - 1], rounds[..|rounds| - 1];
    if m in Fetched(before) {
      FetchedAreOfTheRange(store, limit, from, to, before, m);
    } else {
      PageContents(store, last.from, to, limit, last.page, m);
    }
  }

  /** A loop that ended has fetched every message of the range. */
  lemma EndedRunIsComplete(store: seq<Message>, limit: nat, from: int, to: int, rounds: seq<Round>)
    requires NoOvertaking(store) && limit > 0
    requires IsRun(store, limit, from, to, rounds) && Ended(limit, from, to, rounds)
    ensures FetchedAll(store, from, to, rounds)
  {
    forall m | m in store && InRange(m, from, to) ensures m in Fetched(rounds) {
      NothingIsLeftBehind(store, limit, from, to, rounds, m);
    }
  }

  // ----- termination -----

  ghost predicate NowhereCrowded(store: seq<Message>, limit: nat, from: int, to: int) {
    forall x | from <= x < to :: !Crowded(store, limit, x, to)
  }

  lemma SparseStoreIsNowhereCrowded(store: seq<Message>, limit: nat, d: nat, from: int, to: int)
    requires DriftAtMost(store, d) && Sparse(store, d, limit)
    ensures NowhereCrowded(store, limit, from, to)
  {
    forall x | from <= x < to ensures !Crowded(store, limit, x, to) {
      SparseStoreIsNotCrowded(store, limit, d, x, to);
    }
  }

  /** Without crowding, every answered request moves the loop forward. */
  lemma {:induction false} PositionsIncrease(store: seq<Message>, limit: nat, from: int, to: int, rounds: seq<Round>)
    requires Distinct(store) && limit > 0 && NowhereCrowded(store, limit, from, to)
    requires IsRun(store, limit, from, to, rounds)
    ensures forall i, j | 0 <= i < j < |rounds| :: rounds[i].from < rounds[j].from
    ensures forall i | 0 <= i < |rounds| :: from + i <= rounds[i].from < to
    ensures Next(limit, from, to, rounds).Some? ==>
              Next(limit, from, to, rounds).value >= from + |rounds|
              && forall i | 0 <= i < |rounds| :: rounds[i].from < Next(limit, from, to, rounds).value
    decreases |rounds|
  {
    if rounds != [] {
      var before, last := rounds[..|rounds| - 1], rounds[|rounds| - 1];
      PositionsIncrease(store, limit, from, to, before);
      if |last.page| == limit {
        FullPageAdvances(store, last.from, to, limit, last.page);
      }
      forall i | 0 <= i < |before| ensures rounds[i].from < last.from {
        assert before[i].from < Next(limit, from, to, before).value;
      }
      forall i | 0 <= i < |rounds| ensures from + i <= rounds[i].from < to {
        if i < |before| { assert before[i] == rounds[i]; }
      }
      forall i, j | 0 <= i < j < |rounds| ensures rounds[i].from < rounds[j].from {
        if j < |before| { assert before[i] == rounds[i] && before[j] == rounds[j]; }
      }
    }
  }

  /** A crowded position is never passed. */
  lemma {:induction false} HeldBackRunGoesOn(store: seq<Message>, limit: nat, from: int, to: int,
                                             rounds: seq<Round>, x: int)
    requires limit > 0 && from <= x < to && Crowded(store, limit, x, to)
    requires IsRun(store, limit, from, to, rounds)
    ensures Next(limit, from, to, rounds).Some? && Next(limit, from, to, rounds).value <= x
    decreases |rounds|
  {
    if rounds != [] {
      var before, last := rounds[..|rounds| - 1], rounds[|rounds| - 1];
      HeldBackRunGoesOn(store, limit, from, to, before, x);
      CrowdHoldsBack(store, last.from, to, limit, last.page, x);
    }
  }

  /** Before a crowded position, the loop has runs of every length. */
  lemma {:induction false} HeldBackRun(store: seq<Message>, limit: nat, from: int, to: int, x: int,
                                       n: nat) returns (rounds: seq<Round>)
    requires limit > 0 && from <= x < to && Crowded(store, limit, x, to)
    ensures IsRun(store, limit, from, to, rounds) && |rounds| == n
    decreases n
  {
    rounds := [];
    if n > 0 {
      rounds := HeldBackRun(store, limit, from, to, x, n - 1);
      HeldBackRunGoesOn(store, limit, from, to, rounds, x);
      var position := Next(limit, from, to, rounds).value;
      SortedQueryIsAPage(store, position, to, limit);
      var round := Round(position, Take(SortByEpoch(Matching(store, position, to)), limit));
      LastRound(store, limit, from, to, rounds, round);
      rounds := rounds + [round];
    }
  }

  /**
     The loop always ends, and then after at most one request per millisecond of the range,
     exactly when no position of the range is crowded.
   */
  lemma LoopEndsExactlyWithoutCrowding(store: seq<Message>, limit: nat, from: int, to: int)
    requires Distinct(store) && limit > 0 && from < to
    ensures NowhereCrowded(store, limit, from, to) <==>
            forall rounds: seq<Round> :: IsRun(store, limit, from, to, rounds) ==> |rounds| <= to - from
  {
    if NowhereCrowded(store, limit, from, to) {
      forall rounds: seq<Round> | IsRun(store, limit, from, to, rounds) ensures |rounds| <= to - from {
        PositionsIncrease(store, limit, from, to, rounds);
        if rounds != [] { assert from + (|rounds| - 1) <= rounds[|rounds| - 1].from; }
      }
    } else {
      var x :| from <= x < to && Crowded(store, limit, x, to);
      var rounds := HeldBackRun(store, limit, from, to, x, to - from + 1);
    }
  }

  // ----- what a loop loses -----

  /** The next request's page can drop a message. */
  ghost predicate DropsNext(store: seq<Message>, limit: nat, from: int, to: int, rounds: seq<Round>) {
    && IsRun(store, limit, from, to, rounds)
    && Next(limit, from, to, rounds).Some? && Next(limit, from, to, rounds).value < to
    && exists a, b :: Drops(store, Next(limit, from, to, rounds).value, to, limit, a, b)
  }

  /** A message the loop passed without fetching it was dropped by one of its pages. */
  lemma {:induction false} PassedMessageWasDropped(store: seq<Message>, limit: nat, from: int, to: int,
                                                   rounds: seq<Round>, m: Message)
    returns (before: seq<Round>)
    requires Distinct(store) && limit > 0 && IsRun(store, limit, from, to, rounds)
    requires m in store && InRange(m, from, to) && m !in Fetched(rounds)
    requires Next(limit, from, to, rounds).Some? ==> m.timestamp < Next(limit, from, to, rounds).value
    ensures DropsNext(store, limit, from, to, before)
    decreases |rounds|
  {
    hide IsPage, Drops;
    var last := rounds[|rounds| - 1];
    before := rounds[..|rounds| - 1];
    if m.timestamp < last.from {
      before := PassedMessageWasDropped(store, limit, from, to, before, m);
    } else {
      PageContents(store, last.from, to, limit, last.page, m);
      var a, b := DroppedMessage(store, last.from, to, limit, last.page);
    }
  }

  /** Without crowding, whatever was fetched has an epoch before the position. */
  lemma {:induction false} FetchedEpochsLieBehind(store: seq<Message>, limit: nat, from: int, to: int,
                                                  rounds: seq<Round>, m: Message)
    requires Distinct(store) && limit > 0 && NowhereCrowded(store, limit, from, to)
    requires IsRun(store, limit, from, to, rounds) && Next(limit, from, to, rounds).Some? && m in Fetched(rounds)
    ensures m.epoch < Next(limit, from, to, rounds).value
    decreases |rounds|
  {
    hide IsPage, NowhereCrowded;
    var before, last := rounds[..|rounds| - 1], rounds[|rounds| - 1];
    PageContents(store, last.from, to, limit, last.page, m);
    if m in last.page {
      var i :| 0 <= i < |last.page| && last.page[i] == m;
    } else {
      FetchedEpochsLieBehind(store, limit, from, to, before, m);
      PositionsIncrease(store, limit, from, to, rounds);
      assert rounds[|rounds| - 1].from < Next(limit, from, to, rounds).value;
    }
  }

  /** Without crowding, every run goes on to an end, and what it fetches from now on lies ahead. */
  lemma {:induction false} RunGoesOnToItsEnd(store: seq<Message>, limit: nat, from: int, to: int, rounds: seq<Round>)
    returns (longer: seq<Round>)
    requires Distinct(store) && limit > 0
    requires NowhereCrowded(store, limit, from, to) && IsRun(store, limit, from, to, rounds)
    ensures IsRun(store, limit, from, to, longer) && Ended(limit, from, to, longer)
    ensures forall m | m in Fetched(longer) && m !in Fetched(rounds) ::
              Next(limit, from, to, rounds).Some? && Next(limit, from, to, rounds).value <= m.timestamp
    decreases (to - from) - |rounds|
  {
    hide IsPage, NowhereCrowded, IsRun, Fetched, Distinct;
    longer := rounds;
    if !Ended(limit, from, to, rounds) {
      var position := Next(limit, from, to, rounds).value;
      SortedQueryIsAPage(store, position, to, limit);
      var round := Round(position, Take(SortByEpoch(Matching(store, position, to)), limit));
      LastRound(store, limit, from, to, rounds, round);
      PositionsIncrease(store, limit, from, to, rounds);
      PositionsIncrease(store, limit, from, to, rounds + [round]);
      assert |rounds + [round]| == |rounds| + 1 && from + |rounds| <= position < to;
      longer := RunGoesOnToItsEnd(store, limit, from, to, rounds + [round]);
      forall m | m in Fetched(longer) && m !in Fetched(rounds) ensures position <= m.timestamp {
        if m in round.page {
          PageContents(store, position, to, limit, round.page, m);
        } else {
          assert (rounds + [round])[|rounds|].from < Next(limit, from, to, rounds + [round]).value;
        }
      }
    }
  }

  /** Where a reached page can drop a message, some run drops it for good. */
  lemma DroppedForGood(store: seq<Message>, limit: nat, from: int, to: int, rounds: seq<Round>)
    returns (longer: seq<Round>)
    requires Distinct(store) && limit > 0 && NowhereCrowded(store, limit, from, to)
    requires DropsNext(store, limit, from, to, rounds)
    ensures IsRun(store, limit, from, to, longer) && Ended(limit, from, to, longer)
    ensures !FetchedAll(store, from, to, longer)
  {
    hide IsPage, IsRun, Next, Fetched, NowhereCrowded, Distinct;
    var position := Next(limit, from, to, rounds).value;
    var a, b :| Drops(store, position, to, limit, a, b);
    var page := DroppingPage(store, position, to, limit, a, b);
    var round := Round(position, page);
    LastRound(store, limit, from, to, rounds, round);
    PositionsIncrease(store, limit, from, to, rounds);
    PositionsIncrease(store, limit, from, to, rounds + [round]);
    assert (rounds + [round])[|rounds|].from < Next(limit, from, to, rounds + [round]).value;
    if b in Fetched(rounds) { FetchedEpochsLieBehind(store, limit, from, to, rounds, b); }
    longer := RunGoesOnToItsEnd(store, limit, from, to, rounds + [round]);
    assert b !in Fetched(longer) && InRange(b, from, to);
  }

  /**
     Without crowding, the loop can end without a message of its range exactly when it can
     reach a position whose page drops one.
   */
  lemma LoopLosesExactlyWhereAPageDrops(store: seq<Message>, limit: nat, from: int, to: int)
    requires Distinct(store) && limit > 0 && NowhereCrowded(store, limit, from, to)
    ensures (exists rounds :: IsRun(store, limit, from, to, rounds) && Ended(limit, from, to, rounds)
                              && !FetchedAll(store, from, to, rounds))
            <==> exists rounds :: DropsNext(store, limit, from, to, rounds)
  {
    hide IsRun, Next, Fetched, NowhereCrowded, DropsNext, Distinct;
    if rounds :| IsRun(store, limit, from, to, rounds) && Ended(limit, from, to, rounds)
                 && !FetchedAll(store, from, to, rounds) {
      var m :| m in store && InRange(m, from, to) && m !in Fetched(rounds);
      var before := PassedMessageWasDropped(store, limit, from, to, rounds, m);
    }
    if rounds :| DropsNext(store, limit, from, to, rounds) {
      var longer := DroppedForGood(store, limit, from, to, rounds);
    }
  }

  // ----- epochs that are timestamps -----

  /** Epochs are timestamps, and no two messages share one. */
  ghost predicate ExactClock(store: seq<Message>) {
    && (forall m | m in store :: m.epoch == m.timestamp)
    && forall i, j | 0 <= i < j < |store| :: store[i].timestamp != store[j].timestamp
  }

  ghost predicate Increasing(s: seq<Message>) {
    forall i, j | 0 <= i < j < |s| :: s[i].timestamp < s[j].timestamp
  }

  lemma ExactClockIsOrderly(store: seq<Message>, limit: nat, from: int, to: int)
    requires ExactClock(store) && limit > 0
    ensures Distinct(store) && NoOvertaking(store) && NowhereCrowded(store, limit, from, to)
  {
    forall x | from <= x < to ensures !Crowded(store, limit, x, to) {
      assert Crowd(store, x, to) == {};
    }
  }

  lemma ExactPageIncreases(store: seq<Message>, from: int, to: int, limit: nat, page: seq<Message>)
    requires ExactClock(store) && IsPage(store, from, to, limit, page)
    ensures Increasing(page)
    ensures forall m | m in page :: m in store && InRange(m, from, to) && m.timestamp <= LastEpoch(page)
  {
    hide Matching, IsPage;
    PageIsDistinct(store, from, to, limit, page);
    forall i | 0 <= i < |page|
      ensures page[i] in store && InRange(page[i], from, to) && page[i].epoch <= LastEpoch(page)
    {
      PageContents(store, from, to, limit, page, page[i]);
    }
    forall i, j | 0 <= i < j < |page| ensures page[i].timestamp < page[j].timestamp {
      PageContents(store, from, to, limit, page, page[i]);
      ExactStampsDiffer(store, page[i], page[j]);
    }
  }

  lemma ExactStampsDiffer(store: seq<Message>, a: Message, b: Message)
    requires ExactClock(store) && a in store && b in store && a != b
    ensures a.timestamp != b.timestamp
  {
  }

  /** With exact clocks, the pages come in order, without repetition. */
  lemma {:induction false} ExactRunIncreases(store: seq<Message>, limit: nat, from: int, to: int, rounds: seq<Round>)
    requires ExactClock(store) && limit > 0
    requires IsRun(store, limit, from, to, rounds)
    ensures Increasing(Fetched(rounds))
    ensures Next(limit, from, to, rounds).Some? ==>
              from <= Next(limit, from, to, rounds).value
              && forall m | m in Fetched(rounds) :: m.timestamp < Next(limit, from, to, rounds).value
    ensures forall m | m in Fetched(rounds) :: m in store && InRange(m, from, to)
    decreases |rounds|
  {
    hide IsPage, ExactClock;
    if rounds != [] {
      var before, last := rounds[..|rounds| - 1], rounds[|rounds| - 1];
      ExactRunIncreases(store, limit, from, to, before);
      ExactPageIncreases(store, last.from, to, limit, last.page);
      if last.page != [] {
        assert last.page[|last.page| - 1] in last.page;
      }
      assert forall m, x | m in Fetched(before) && x in last.page :: m.timestamp < x.timestamp;
      IncreasingConcat(Fetched(before), last.page);
    }
  }

  lemma IncreasingConcat(s: seq<Message>, t: seq<Message>)
    requires Increasing(s) && Increasing(t)
    requires forall m, x | m in s && x in t :: m.timestamp < x.timestamp
    ensures Increasing(s + t)
  {
  }

  /** With exact clocks, an ended loop has fetched exactly the messages of the range, in order, each once. */
  lemma ExactRunIsTheRange(store: seq<Message>, limit: nat, from: int, to: int, rounds: seq<Round>)
    requires ExactClock(store) && limit > 0
    requires IsRun(store, limit, from, to, rounds) && Ended(limit, from, to, rounds)
    ensures Increasing(Fetched(rounds))
    ensures forall m :: m in Fetched(rounds) <==> m in store && InRange(m, from, to)
  {
    ExactRunIncreases(store, limit, from, to, rounds);
    ExactClockIsOrderly(store, limit, from, to);
    EndedRunIsComplete(store, limit, from, to, rounds);
  }
}
