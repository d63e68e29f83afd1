/**
 Time-range history synchronisation. The server filters messages by timestamp but sorts
 them, and reports the bounds of a page, by epoch; the client continues one millisecond
 after the last epoch of a full page.
 */
module HistorySync {
  import opened Prelude
  import opened Admission

  // ----- the server's query -----

  predicate InRange(m: Message, from: int, to: int) {
    from <= m.timestamp < to
  }

  function Matching(store: seq<Message>, from: int, to: int): seq<Message> {
    if store == [] then []
    else
      var last := store[|store| - 1];
      Matching(store[..|store| - 1], from, to) + (if InRange(last, from, to) then [last] else [])
  }

  predicate SortedByEpoch(s: seq<Message>) {
    forall i, j | 0 <= i < j < |s| :: s[i].epoch <= s[j].epoch
  }

  function Insert(s: seq<Message>, m: Message): seq<Message> {
    if s == [] then [m]
    else if s[|s| - 1].epoch <= m.epoch then s + [m]
    else Insert(s[..|s| - 1], m) + [s[|s| - 1]]
  }

  function SortByEpoch(s: seq<Message>): seq<Message> {
    if s == [] then [] else Insert(SortByEpoch(s[..|s| - 1]), s[|s| - 1])
  }

  lemma AppendKeepsOrder(s: seq<Message>, last: Message)
    requires SortedByEpoch(s) && forall x | x in s :: x.epoch <= last.epoch
    ensures SortedByEpoch(s + [last])
  {
  }

  lemma {:induction false} InsertKeepsContents(s: seq<Message>, m: Message)
    ensures multiset(Insert(s, m)) == multiset(s) + multiset{m}
    decreases |s|
  {
    if s != [] {
      var rest, last := s[..|s| - 1], s[|s| - 1];
      assert s == rest + [last];
      if last.epoch > m.epoch {
        InsertKeepsContents(rest, m);
        assert multiset(Insert(s, m)) == multiset(Insert(rest, m)) + multiset{last};
      }
    }
  }

  lemma {:induction false} InsertKeepsOrder(s: seq<Message>, m: Message)
    requires SortedByEpoch(s)
    ensures SortedByEpoch(Insert(s, m))
    ensures forall x | x in Insert(s, m) :: x in s || x == m
    decreases |s|
  {
    if s != [] {
      var rest, last := s[..|s| - 1], s[|s| - 1];
      if last.epoch > m.epoch {
        InsertKeepsOrder(rest, m);
        forall x | x in Insert(rest, m) ensures x.epoch <= last.epoch {
          if x != m {
            var i :| 0 <= i < |rest| && rest[i] == x;
            assert s[i].epoch <= s[|s| - 1].epoch;
          }
        }
        AppendKeepsOrder(Insert(rest, m), last);
      } else {
        forall x | x in s ensures x.epoch <= m.epoch {
          var i :| 0 <= i < |s| && s[i] == x;
        }
        AppendKeepsOrder(s, m);
      }
    }
  }

  lemma {:induction false} SortSorts(s: seq<Message>)
    ensures SortedByEpoch(SortByEpoch(s)) && multiset(SortByEpoch(s)) == multiset(s)
    decreases |s|
  {
    hide SortedByEpoch, Insert;
    if s == [] {
      EmptyIsSorted();
    } else {
      var rest, last := s[..|s| - 1], s[|s| - 1];
      SortSorts(rest);
      InsertKeepsOrder(SortByEpoch(rest), last);
      InsertKeepsContents(SortByEpoch(rest), last);
      assert s == rest + [last];
      assert multiset(s) == multiset(rest) + multiset{last};
    }
  }

  lemma EmptyIsSorted()
    ensures SortedByEpoch([])
  {
  }

  function Take(s: seq<Message>, limit: nat): seq<Message> {
    if |s| <= limit then s else s[..limit]
  }

  /** The matching messages in some order of their epochs; messages of one epoch come in any order. */
  ghost predicate IsOrdering(store: seq<Message>, from: int, to: int, ordering: seq<Message>) {
    SortedByEpoch(ordering) && multiset(ordering) == multiset(Matching(store, from, to))
  }

  /** What a query may answer: the first messages, up to the limit, of some ordering. */
  ghost predicate IsPage(store: seq<Message>, from: int, to: int, limit: nat, page: seq<Message>) {
    exists ordering :: IsOrdering(store, from, to, ordering) && page == Take(ordering, limit)
  }

  datatype TimeRangeMessages = TimeRangeMessages(
    requestedFrom: int,
    requestedTo: int,
    returnedFrom: int,
    returnedTo: int,
    messages: seq<Message>,
    limit: nat)

  lemma {:induction false} MatchingMembers(store: seq<Message>, from: int, to: int)
    ensures forall m :: m in Matching(store, from, to) <==> m in store && InRange(m, from, to)
    decreases |store|
  {
    if store != [] {
      var rest, last := store[..|store| - 1], store[|store| - 1];
      MatchingMembers(rest, from, to);
      assert store == rest + [last];
    }
  }

  // ----- one page -----

  ghost predicate Distinct(s: seq<Message>) {
    forall i, j | 0 <= i < j < |s| :: s[i] != s[j]
  }

  function LastEpoch(page: seq<Message>): int
    requires page != []
  {
    page[|page| - 1].epoch
  }

  /** A page holds matching messages only, and whatever it leaves out has no smaller epoch than its last. */
  lemma PageContents(store: seq<Message>, from: int, to: int, limit: nat, page: seq<Message>, m: Message)
    requires IsPage(store, from, to, limit, page)
    ensures |page| <= limit && SortedByEpoch(page)
    ensures m in page ==> m in store && InRange(m, from, to)
    ensures m in store && InRange(m, from, to) && m !in page ==>
              |page| == limit && (page != [] ==> LastEpoch(page) <= m.epoch)
  {
    var ordering :| IsOrdering(store, from, to, ordering) && page == Take(ordering, limit);
    MatchingMembers(store, from, to);
    assert m in ordering <==> m in multiset(ordering);
    assert m in Matching(store, from, to) <==> m in multiset(Matching(store, from, to));
    assert ordering == page + ordering[|page|..];
  }

  /** Some ordering is what sorting gives, so a page always exists. */
  lemma SortedQueryIsAPage(store: seq<Message>, from: int, to: int, limit: nat)
    ensures IsPage(store, from, to, limit, Take(SortByEpoch(Matching(store, from, to)), limit))
  {
    SortSorts(Matching(store, from, to));
    assert IsOrdering(store, from, to, SortByEpoch(Matching(store, from, to)));
  }

  /** No message overtakes another: one that is not later by epoch is earlier than the other's timestamp. */
  ghost predicate NoOvertaking(store: seq<Message>) {
    forall a, b | a in store && b in store && a != b && a.epoch <= b.epoch :: a.epoch < b.timestamp
  }

  /** Continuing after a full page still covers every matching message that the page left out. */
  ghost predicate CoversTheRest(from: int, to: int, page: seq<Message>, store: seq<Message>)
    requires page != []
  {
    forall m | m in store && InRange(m, from, to) && m !in page :: LastEpoch(page) + 1 <= m.timestamp
  }

  lemma NoOvertakingCoversTheRest(store: seq<Message>, from: int, to: int, limit: nat, page: seq<Message>)
    requires NoOvertaking(store) && IsPage(store, from, to, limit, page) && page != []
    ensures CoversTheRest(from, to, page, store)
  {
    var last := page[|page| - 1];
    PageContents(store, from, to, limit, page, last);
    forall m | m in store && InRange(m, from, to) && m !in page
      ensures LastEpoch(page) + 1 <= m.timestamp
    {
      PageContents(store, from, to, limit, page, m);
    }
  }

  lemma {:induction false} DistinctMeansCountedOnce(s: seq<Message>)
    ensures Distinct(s) <==> forall m :: multiset(s)[m] <= 1
    decreases |s|
  {
    if s != [] {
      var rest, last := s[..|s| - 1], s[|s| - 1];
      assert s == rest + [last];
      DistinctMeansCountedOnce(rest);
      if last in rest {
        var i :| 0 <= i < |rest| && rest[i] == last;
        assert s[i] == s[|s| - 1] && multiset(s)[last] >= 2;
      } else {
        assert forall m :: multiset(s)[m] == multiset(rest)[m] + if m == last then 1 else 0;
      }
    }
  }

  lemma DistinctAppend(s: seq<Message>, m: Message)
    requires Distinct(s) && m !in s
    ensures Distinct(s + [m])
  {
  }

  lemma {:induction false} MatchingIsDistinct(store: seq<Message>, from: int, to: int)
    requires Distinct(store)
    ensures Distinct(Matching(store, from, to))
    decreases |store|
  {
    if store != [] {
      MatchingIsDistinct(store[..|store| - 1], from, to);
      MatchingMembers(store[..|store| - 1], from, to);
    }
  }

  lemma OrderingIsDistinct(store: seq<Message>, from: int, to: int, ordering: seq<Message>)
    requires Distinct(store) && IsOrdering(store, from, to, ordering)
    ensures Distinct(ordering)
  {
    MatchingIsDistinct(store, from, to);
    DistinctMeansCountedOnce(ordering);
    DistinctMeansCountedOnce(Matching(store, from, to));
  }

  lemma PageIsDistinct(store: seq<Message>, from: int, to: int, limit: nat, page: seq<Message>)
    requires Distinct(store) && IsPage(store, from, to, limit, page)
    ensures Distinct(page)
  {
    hide IsOrdering;
    var ordering :| IsOrdering(store, from, to, ordering) && page == Take(ordering, limit);
    OrderingIsDistinct(store, from, to, ordering);
  }

  /** Exchanging two messages of one epoch keeps an ordering. */
  lemma SwapKeepsOrdering(store: seq<Message>, from: int, to: int, s: seq<Message>, j: nat, i: nat)
    requires IsOrdering(store, from, to, s) && j < i < |s| && s[i].epoch <= s[j].epoch
    ensures IsOrdering(store, from, to, s[i := s[j]][j := s[i]])
  {
    hide Matching;
    var swapped := s[i := s[j]][j := s[i]];
    assert forall k | 0 <= k < |s| :: swapped[k].epoch == s[k].epoch;
    assert multiset(swapped) == multiset(s);
  }

  /** Of two messages, one that is not later by epoch comes first in some ordering. */
  lemma OrderingWithFirst(store: seq<Message>, from: int, to: int, a: Message, b: Message)
    returns (ordering: seq<Message>, i: nat, j: nat)
    requires a in store && b in store && a != b && a.epoch <= b.epoch
    requires InRange(a, from, to) && InRange(b, from, to)
    ensures IsOrdering(store, from, to, ordering) && i < j < |ordering| && ordering[i] == a && ordering[j] == b
  {
    hide Matching, SortByEpoch;
    var matching := Matching(store, from, to);
    MatchingMembers(store, from, to);
    SortSorts(matching);
    ordering := SortByEpoch(matching);
    assert a in multiset(ordering) && b in multiset(ordering);
    i :| 0 <= i < |ordering| && ordering[i] == a;
    j :| 0 <= j < |ordering| && ordering[j] == b;
    if j < i {
      SwapKeepsOrdering(store, from, to, ordering, j, i);
      ordering, i, j := ordering[i := b][j := a], j, i;
    }
  }

  /** If one message overtakes another, some page of some range drops the other. */
  lemma OvertakingLosesAMessage(store: seq<Message>, a: Message, b: Message)
    returns (from: int, to: int, limit: nat, page: seq<Message>)
    requires Distinct(store) && a in store && b in store && a != b && a.epoch <= b.epoch && b.timestamp <= a.epoch
    ensures limit > 0 && IsPage(store, from, to, limit, page) && |page| == limit && from < to
    ensures InRange(b, from, to) && b !in page && b.timestamp < LastEpoch(page) + 1
  {
    from := if a.timestamp < b.timestamp then a.timestamp else b.timestamp;
    to := if a.timestamp < b.timestamp then b.timestamp + 1 else a.timestamp + 1;
    var ordering, i, j := OrderingWithFirst(store, from, to, a, b);
    OrderingIsDistinct(store, from, to, ordering);
    limit := i + 1;
    page := ordering[..limit];
    assert page == Take(ordering, limit);
  }

  /**
     Full pages never drop a message, whatever the range, the limit and the order within an
     epoch, exactly when no stored message overtakes another.
   */
  lemma PagesLoseNothingExactlyWithoutOvertaking(store: seq<Message>)
    requires Distinct(store)
    ensures NoOvertaking(store) <==>
            forall from, to, limit: nat, page ::
              IsPage(store, from, to, limit, page) && |page| == limit > 0 ==> CoversTheRest(from, to, page, store)
  {
    if NoOvertaking(store) {
      forall from, to, limit: nat, page | IsPage(store, from, to, limit, page) && |page| == limit > 0
        ensures CoversTheRest(from, to, page, store)
      {
        NoOvertakingCoversTheRest(store, from, to, limit, page);
      }
    } else {
      var a, b :| a in store && b in store && a != b && a.epoch <= b.epoch && b.timestamp <= a.epoch;
      var from, to, limit, page := OvertakingLosesAMessage(store, a, b);
      assert !CoversTheRest(from, to, page, store);
    }
  }

  // ----- progress -----

  lemma {:induction false} DistinctFitInSet(s: seq<Message>, members: set<Message>)
    requires Distinct(s) && forall m | m in s :: m in members
    ensures |s| <= |members|
    decreases |s|
  {
    if s != [] {
      DistinctFitInSet(s[..|s| - 1], members - {s[|s| - 1]});
    }
  }

  /** The messages a query from x on returns although their epoch is before x. */
  ghost function Crowd(store: seq<Message>, x: int, to: int): set<Message> {
    set m | m in store && InRange(m, x, to) && m.epoch < x
  }

  ghost predicate Crowded(store: seq<Message>, limit: nat, x: int, to: int) {
    |Crowd(store, x, to)| >= limit
  }

  /** A full page moves the client forward unless a page's worth of messages has epochs before its position. */
  lemma FullPageAdvances(store: seq<Message>, from: int, to: int, limit: nat, page: seq<Message>)
    requires Distinct(store) && !Crowded(store, limit, from, to)
    requires IsPage(store, from, to, limit, page) && |page| == limit > 0
    ensures LastEpoch(page) >= from
  {
    hide IsPage;
    if LastEpoch(page) < from {
      PageIsDistinct(store, from, to, limit, page);
      forall m | m in page ensures m in Crowd(store, from, to) {
        PageContents(store, from, to, limit, page, m);
        var k :| 0 <= k < |page| && page[k] == m;
      }
      DistinctFitInSet(page, Crowd(store, from, to));
    }
  }

  lemma {:induction false} MembersAtMostLength(s: seq<Message>, members: set<Message>)
    requires forall m | m in members :: m in s
    ensures |members| <= |s|
    decreases |s|
  {
    if s == [] {
      assert members == {};
    } else {
      MembersAtMostLength(s[..|s| - 1], members - {s[|s| - 1]});
    }
  }

  /** At or before a crowded position, every page is full and ends with an epoch before that position. */
  lemma CrowdHoldsBack(store: seq<Message>, from: int, to: int, limit: nat, page: seq<Message>, x: int)
    requires Crowded(store, limit, x, to) && from <= x
    requires IsPage(store, from, to, limit, page) && limit > 0
    ensures |page| == limit && LastEpoch(page) < x
  {
    hide IsPage;
    var crowd := Crowd(store, x, to);
    if m :| m in crowd && m !in page {
      PageContents(store, from, to, limit, page, m);
    } else {
      MembersAtMostLength(page, crowd);
      PageContents(store, from, to, limit, page, Message(0, 0, "", "", 0, ""));
      var last := page[|page| - 1];
      if last !in crowd {
        MembersAtMostLength(page, crowd + {last});
      }
    }
  }

  /** Epochs lag behind timestamps by at most d. */
  ghost predicate DriftAtMost(store: seq<Message>, d: nat) {
    forall m | m in store :: m.timestamp - d <= m.epoch
  }

  ghost function Window(store: seq<Message>, x: int, d: nat): set<Message> {
    set m | m in store && x <= m.timestamp < x + d
  }

  /** Every stretch of d milliseconds holds fewer messages than a page. */
  ghost predicate Sparse(store: seq<Message>, d: nat, limit: nat) {
    forall x :: |Window(store, x, d)| < limit
  }

  lemma SparseStoreIsNotCrowded(store: seq<Message>, limit: nat, d: nat, x: int, to: int)
    requires DriftAtMost(store, d) && Sparse(store, d, limit)
    ensures !Crowded(store, limit, x, to)
  {
    SubsetIsNotLarger(Crowd(store, x, to), Window(store, x, d));
  }

  // ----- what a page of a given size drops -----

  ghost function Before(store: seq<Message>, from: int, to: int, epoch: int): set<Message> {
    set m | m in store && InRange(m, from, to) && m.epoch < epoch
  }

  ghost function UpTo(store: seq<Message>, from: int, to: int, epoch: int): set<Message> {
    set m | m in store && InRange(m, from, to) && m.epoch <= epoch
  }

  /** A page can end with a's epoch without b, and continuing after that epoch skips b. */
  ghost predicate Drops(store: seq<Message>, from: int, to: int, limit: nat, a: Message, b: Message) {
    && a in store && b in store && InRange(a, from, to) && InRange(b, from, to) && a != b
    && b.timestamp <= a.epoch <= b.epoch
    && |Before(store, from, to, a.epoch)| < limit <= |UpTo(store, from, to, a.epoch) - {b}|
  }

  /** A full page that skips a message shows which one, and what it ended with. */
  lemma DroppedMessage(store: seq<Message>, from: int, to: int, limit: nat, page: seq<Message>)
    returns (a: Message, b: Message)
    requires Distinct(store) && IsPage(store, from, to, limit, page) && |page| == limit > 0
    requires !CoversTheRest(from, to, page, store)
    ensures Drops(store, from, to, limit, a, b) && b !in page
  {
    hide IsPage;
    a := page[|page| - 1];
    b :| b in store && InRange(b, from, to) && b !in page && LastEpoch(page) + 1 > b.timestamp;
    PageContents(store, from, to, limit, page, a);
    PageContents(store, from, to, limit, page, b);
    PageIsDistinct(store, from, to, limit, page);
    forall m | m in Before(store, from, to, a.epoch) ensures m in page[..limit - 1] {
      PageContents(store, from, to, limit, page, m);
      var i :| 0 <= i < |page| && page[i] == m;
    }
    MembersAtMostLength(page[..limit - 1], Before(store, from, to, a.epoch));
    forall m | m in page ensures m in UpTo(store, from, to, a.epoch) - {b} {
      PageContents(store, from, to, limit, page, m);
      var i :| 0 <= i < |page| && page[i] == m;
    }
    DistinctFitInSet(page, UpTo(store, from, to, a.epoch) - {b});
  }

  /** The query's sort puts a message behind all that are not later. */
  lemma {:induction false} InsertKeepsPrefix(s: seq<Message>, m: Message, n: nat)
    requires n <= |s| && SortedByEpoch(s) && forall i | 0 <= i < n :: s[i].epoch <= m.epoch
    ensures |Insert(s, m)| == |s| + 1 && Insert(s, m)[..n] == s[..n]
    decreases |s|
  {
    if s != [] && s[|s| - 1].epoch > m.epoch {
      InsertKeepsPrefix(s[..|s| - 1], m, n);
    }
  }

  lemma ContentsWithoutOne(s: seq<Message>, i: nat)
    requires i < |s|
    ensures multiset(s) == multiset(s[..i] + s[i + 1..]) + multiset{s[i]}
  {
    assert s == s[..i] + [s[i]] + s[i + 1..];
  }

  lemma OneFewerOfDistinct(s: seq<Message>, fewer: seq<Message>, x: Message)
    requires Distinct(s) && multiset(s) == multiset(fewer) + multiset{x}
    ensures Distinct(fewer) && forall m :: m in fewer <==> m in s && m != x
  {
    hide Distinct;
    DistinctMeansCountedOnce(s);
    DistinctMeansCountedOnce(fewer);
    forall m ensures multiset(fewer)[m] == multiset(s)[m] - (if m == x then 1 else 0) { }
    forall m ensures m in fewer <==> m in s && m != x {
      assert m in fewer <==> m in multiset(fewer);
      assert m in s <==> m in multiset(s);
    }
  }

  /** All matching messages but one, sorted; inserting that one gives an ordering. */
  lemma OrderingWithLast(store: seq<Message>, from: int, to: int, b: Message) returns (rest: seq<Message>)
    requires Distinct(store) && b in store && InRange(b, from, to)
    ensures SortedByEpoch(rest) && Distinct(rest) && IsOrdering(store, from, to, Insert(rest, b))
    ensures forall m :: m in rest <==> m in store && InRange(m, from, to) && m != b
  {
    hide Matching, SortByEpoch, Insert, Distinct, SortedByEpoch;
    var matching := Matching(store, from, to);
    MatchingMembers(store, from, to);
    MatchingIsDistinct(store, from, to);
    var i :| 0 <= i < |matching| && matching[i] == b;
    var others := matching[..i] + matching[i + 1..];
    ContentsWithoutOne(matching, i);
    SortSorts(others);
    rest := SortByEpoch(others);
    OneFewerOfDistinct(matching, rest, b);
    InsertKeepsOrder(rest, b);
    InsertKeepsContents(rest, b);
  }

  /** In a sorted list that holds all of a set with epochs up to some epoch, the set comes first. */
  lemma EndsNotAfter(s: seq<Message>, members: set<Message>, epoch: int, limit: nat)
    requires SortedByEpoch(s) && 0 < limit <= |members|
    requires forall m | m in members :: m in s && m.epoch <= epoch
    ensures limit <= |s| && s[limit - 1].epoch <= epoch
  {
    MembersAtMostLength(s, members);
    if s[limit - 1].epoch > epoch {
      forall m | m in members ensures m in s[..limit - 1] {
        var i :| 0 <= i < |s| && s[i] == m;
        assert i < limit - 1;
      }
      MembersAtMostLength(s[..limit - 1], members);
    }
  }

  /** And if few epochs are before some epoch, the list does not end before it. */
  lemma EndsNotBefore(s: seq<Message>, earlier: set<Message>, epoch: int, limit: nat)
    requires SortedByEpoch(s) && Distinct(s) && 0 < limit <= |s| && |earlier| < limit
    requires forall m | m in s && m.epoch < epoch :: m in earlier
    ensures s[limit - 1].epoch >= epoch
  {
    if s[limit - 1].epoch < epoch {
      forall m | m in s[..limit] ensures m in earlier {
        var i :| 0 <= i < limit && s[i] == m;
      }
      DistinctFitInSet(s[..limit], earlier);
    }
  }

  /** The first messages of a sorted list are a page also when one that is not earlier is inserted. */
  lemma FirstOfInserted(store: seq<Message>, from: int, to: int, limit: nat, rest: seq<Message>, b: Message)
    requires SortedByEpoch(rest) && IsOrdering(store, from, to, Insert(rest, b))
    requires 0 < limit <= |rest| && rest[limit - 1].epoch <= b.epoch
    ensures IsPage(store, from, to, limit, rest[..limit])
  {
    hide IsOrdering, Insert;
    InsertKeepsPrefix(rest, b, limit);
    assert rest[..limit] == Take(Insert(rest, b), limit);
  }

  /** The page that drops the message. */
  lemma DroppingPage(store: seq<Message>, from: int, to: int, limit: nat, a: Message, b: Message)
    returns (page: seq<Message>)
    requires Distinct(store) && limit > 0 && Drops(store, from, to, limit, a, b)
    ensures IsPage(store, from, to, limit, page) && |page| == limit && b !in page && LastEpoch(page) == a.epoch
    ensures !CoversTheRest(from, to, page, store)
  {
    hide IsOrdering, IsPage, Insert, Distinct, SortedByEpoch;
    var rest := OrderingWithLast(store, from, to, b);
    EndsNotAfter(rest, UpTo(store, from, to, a.epoch) - {b}, a.epoch, limit);
    EndsNotBefore(rest, Before(store, from, to, a.epoch), a.epoch, limit);
    FirstOfInserted(store, from, to, limit, rest, b);
    page := rest[..limit];
    assert forall m | m in page :: m in rest;
  }

  /**
     For a given range and page size: some full page drops a message exactly when some message
     b is overtaken by an a such that less than a page has epochs before a's, and at least a
     page without b has epochs up to a's.
   */
  lemma FullPageDropsAMessageExactlyWhen(store: seq<Message>, from: int, to: int, limit: nat)
    requires Distinct(store) && limit > 0
    ensures (exists page ::
               IsPage(store, from, to, limit, page) && |page| == limit && !CoversTheRest(from, to, page, store))
            <==> exists a, b :: Drops(store, from, to, limit, a, b)
  {
    hide IsPage, CoversTheRest, Drops;
    if page :| IsPage(store, from, to, limit, page) && |page| == limit && !CoversTheRest(from, to, page, store) {
      var a, b := DroppedMessage(store, from, to, limit, page);
    }
    if a, b :| Drops(store, from, to, limit, a, b) {
      var page := DroppingPage(store, from, to, limit, a, b);
    }
  }
}
