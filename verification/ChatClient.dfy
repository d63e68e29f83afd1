/** The history synchronisation as client and server run it, over the stores they update. */
module ChatClient {
  import opened Prelude
  import opened Admission
  import opened HistorySync
  import opened HistoryRuns
  import opened Profiles

  datatype RangeError = InvalidDateRange

  class ChatService {
    static const MESSAGE_COUNT_LIMIT: nat := 1000
    var messages: seq<Message>

    /** The first page of a range, with its bounds. */
    method GetMessagesInTimeRange(from: int, to: int) returns (r: Result<TimeRangeMessages, RangeError>)
      ensures r.Err? <==> from >= to
      ensures r.Ok? ==>
                && IsPage(messages, from, to, 1000, r.value.messages)
                && r.value.limit == 1000
                && (|r.value.messages| < 1000 ==>
                      forall m :: m in r.value.messages <==> m in messages && from <= m.timestamp < to)
                && r.value.requestedFrom == from && r.value.requestedTo == to
                && r.value.returnedTo == ReturnedTo(r.value.messages, to)
                && (r.value.messages == [] ==> r.value.returnedFrom == from)
                && (r.value.messages != [] ==> exists m :: m in r.value.messages && m.epoch == r.value.returnedFrom)
                && forall m | m in r.value.messages :: r.value.returnedFrom <= m.epoch <= r.value.returnedTo
    {
      if from >= to { return Err(InvalidDateRange); }
      SortedQueryIsAPage(messages, from, to, MESSAGE_COUNT_LIMIT);
      var found := Take(SortByEpoch(Matching(messages, from, to)), MESSAGE_COUNT_LIMIT);
      forall m {:trigger m in found} {:trigger m in messages}
        ensures m in found ==> m in messages && InRange(m, from, to)
        ensures m in messages && InRange(m, from, to) && m !in found ==> |found| == MESSAGE_COUNT_LIMIT
      {
        PageContents(messages, from, to, MESSAGE_COUNT_LIMIT, found, m);
      }
      PageContents(messages, from, to, MESSAGE_COUNT_LIMIT, found, Message(0, 0, "", "", 0, ""));
      assert found != [] ==> found[0] in found;
      var returnedFrom := if |found| > 0 then found[0].epoch else from;
      var returnedTo := if |found| > 0 then found[|found| - 1].epoch else to;
      return Ok(TimeRangeMessages(from, to, returnedFrom, returnedTo, found, MESSAGE_COUNT_LIMIT));
    }
  }

  /** A decrypted message, filed under a room. */
  datatype Filed = Filed(roomId: string, message: Message)

  function Decrypted(crypto: Cryptography, p: Profile, m: Message): Option<Filed> {
    match FirstOpening(crypto, RoomsForChatType(p, m.chatType), m.content)
    case None => None
    case Some(found) => Some(Filed(found.0, m.(content := found.1)))
  }

  /** The room is the first one of the chat type that has its key. */
  ghost predicate FirstWithItsKey(p: Profile, chatType: string, room: Room) {
    if chatType == "PUBLIC" then IsFirst(p.publicRooms, room)
    else if chatType == "PRIVATE" then IsFirst(p.privateRooms, room)
    else
      && chatType == "DIRECT"
      && exists i | 0 <= i < |p.directRooms| ::
           && p.directRooms[i].room == room
           && forall j | 0 <= j < i :: p.directRooms[j].room.symmetricKey != room.symmetricKey
  }

  ghost predicate IsFirst(rooms: seq<Room>, room: Room) {
    exists i | 0 <= i < |rooms| ::
      rooms[i] == room && forall j | 0 <= j < i :: rooms[j].symmetricKey != room.symmetricKey
  }

  /**
     A text encrypted under the key of a room of the message's type is filed, as the text it
     was, under the first such room.
     */
  lemma TextIsFiledUnderTheFirstRoom(crypto: Cryptography, p: Profile, m: Message, text: string, room: Room)
    requires crypto.Authenticated() && crypto.encrypt(text, room.symmetricKey) == Some(m.content)
    requires FirstWithItsKey(p, m.chatType, room)
    ensures Decrypted(crypto, p, m) == Some(Filed(room.id, m.(content := text)))
  {
    RoomsOfEachType(p);
    var rooms := RoomsForChatType(p, m.chatType);
    var i :| 0 <= i < |rooms| && rooms[i] == room
             && forall j | 0 <= j < i :: rooms[j].symmetricKey != room.symmetricKey;
    FirstRoomWithTheKeyOpens(crypto, rooms, text, room.symmetricKey, i);
  }

  /** A message is not filed exactly when no room of its type has the key; of an unknown type none has. */
  lemma TextIsLostExactlyWithoutTheKey(crypto: Cryptography, p: Profile, m: Message, text: string, key: string)
    requires crypto.Authenticated() && crypto.encrypt(text, key) == Some(m.content)
    ensures Decrypted(crypto, p, m).None? <==>
              && (m.chatType == "PUBLIC" ==> forall room | room in p.publicRooms :: room.symmetricKey != key)
              && (m.chatType == "PRIVATE" ==> forall room | room in p.privateRooms :: room.symmetricKey != key)
              && (m.chatType == "DIRECT" ==> forall d | d in p.directRooms :: d.room.symmetricKey != key)
  {
    RoomsOfEachType(p);
    var rooms := RoomsForChatType(p, m.chatType);
    var i := FirstWithKey(rooms, key);
    FirstRoomWithTheKeyOpens(crypto, rooms, text, key, i);
    if m.chatType == "DIRECT" && i < |rooms| { assert p.directRooms[i] in p.directRooms; }
    if m.chatType == "DIRECT" && exists d :: d in p.directRooms && d.room.symmetricKey == key {
      var d :| d in p.directRooms && d.room.symmetricKey == key;
      var j :| 0 <= j < |p.directRooms| && p.directRooms[j] == d;
      assert rooms[j].symmetricKey == key;
    }
  }

  /** What of some messages is kept: those that some room's key opens. */
  function Kept(crypto: Cryptography, p: Profile, messages: seq<Message>): seq<Filed> {
    if messages == [] then []
    else
      Kept(crypto, p, messages[..|messages| - 1]) +
      match Decrypted(crypto, p, messages[|messages| - 1])
      case None => []
      case Some(filed) => [filed]
  }

  lemma KeptOfNothing(crypto: Cryptography, p: Profile)
    ensures Kept(crypto, p, []) == []
  {
  }

  lemma KeptStep(crypto: Cryptography, p: Profile, messages: seq<Message>, i: nat)
    requires i < |messages|
    ensures Kept(crypto, p, messages[..i + 1])
            == Kept(crypto, p, messages[..i])
               + match Decrypted(crypto, p, messages[i])
                 case None => []
                 case Some(filed) => [filed]
  {
    assert messages[..i + 1][..i] == messages[..i];
  }

  lemma {:induction false} KeptOfConcat(crypto: Cryptography, p: Profile, s: seq<Message>, t: seq<Message>)
    ensures Kept(crypto, p, s + t) == Kept(crypto, p, s) + Kept(crypto, p, t)
    decreases |t|
  {
    if t == [] {
      assert s + t == s;
    } else {
      KeptOfConcat(crypto, p, s, t[..|t| - 1]);
      assert (s + t)[..|s + t| - 1] == s + t[..|t| - 1];
    }
  }

  lemma {:induction false} OpenedIsKept(crypto: Cryptography, p: Profile, messages: seq<Message>, m: Message)
    requires m in messages && Decrypted(crypto, p, m).Some?
    ensures Decrypted(crypto, p, m).value in Kept(crypto, p, messages)
    decreases |messages|
  {
    if m in messages[..|messages| - 1] {
      OpenedIsKept(crypto, p, messages[..|messages| - 1], m);
    }
  }

  /** What is kept are the opened messages. */
  lemma {:induction false} KeptWasOpened(crypto: Cryptography, p: Profile, messages: seq<Message>, filed: Filed)
    returns (m: Message)
    requires filed in Kept(crypto, p, messages)
    ensures m in messages && Decrypted(crypto, p, m) == Some(filed)
    decreases |messages|
  {
    if filed in Kept(crypto, p, messages[..|messages| - 1]) {
      m := KeptWasOpened(crypto, p, messages[..|messages| - 1], filed);
    } else {
      m := messages[|messages| - 1];
    }
  }

  /** The greatest timestamp of the local messages, -1 if there are none. */
  function MaxTimestamp(db: seq<Filed>): int {
    if db == [] then -1
    else
      var earlier, last := MaxTimestamp(db[..|db| - 1]), db[|db| - 1].message.timestamp;
      if |db| == 1 || last > earlier then last else earlier
  }

  /** Where a synchronisation starts: behind the newest local message. */
  function StartOfSync(db: seq<Filed>, to: int): int {
    var from := MaxTimestamp(db) + 1;
    if from == -1 then to - 24 * 60 * 60 * 100 else from
  }

  lemma {:induction false} MaxTimestampIsGreatest(db: seq<Filed>)
    ensures forall f | f in db :: f.message.timestamp <= MaxTimestamp(db)
    ensures if db == [] then MaxTimestamp(db) == -1 else exists f :: f in db && f.message.timestamp == MaxTimestamp(db)
    decreases |db|
  {
    if db != [] {
      var rest, last := db[..|db| - 1], db[|db| - 1];
      MaxTimestampIsGreatest(rest);
      if |db| == 1 || last.message.timestamp > MaxTimestamp(rest) {
        assert last in db;
      } else {
        var f :| f in rest && f.message.timestamp == MaxTimestamp(rest);
        assert f in db;
      }
    }
  }

  /**
     A synchronisation starts behind every local message, and at or before everything that is
     newer than all of them, however little; without local messages it starts at time 0.
   */
  lemma SyncStartsJustBehind(db: seq<Filed>, to: int, timestamp: int)
    requires forall f | f in db :: f.message.timestamp >= 0
    ensures forall f | f in db :: f.message.timestamp < StartOfSync(db, to)
    ensures timestamp >= StartOfSync(db, to) <==>
              timestamp >= 0 && forall f | f in db :: f.message.timestamp < timestamp
  {
    MaxTimestampIsGreatest(db);
  }

  /** The message is from time 0 on, before the end, and newer than all local ones. */
  predicate IsNews(m: Message, db: seq<Filed>, to: int) {
    0 <= m.timestamp < to && forall f | f in db :: f.message.timestamp < m.timestamp
  }

  /** The client has every message before the bound that one of its rooms opens. */
  ghost predicate HasAllBefore(crypto: Cryptography, p: Profile, store: seq<Message>, bound: int, db: seq<Filed>) {
    forall m | m in store && m.timestamp < bound ::
      Decrypted(crypto, p, m).Some? ==> Decrypted(crypto, p, m).value in db
  }

  /** After the range was fetched, the client has all messages exactly when it had all those before the range. */
  lemma HasAllExactlyWhenItHadTheEarlier(crypto: Cryptography, p: Profile, store: seq<Message>, limit: nat,
                                         from: int, to: int, rounds: seq<Round>, db: seq<Filed>)
    requires IsRun(store, limit, from, to, rounds) && FetchedAll(store, from, to, rounds)
    requires forall round | round in rounds :: from <= round.from
    ensures HasAllBefore(crypto, p, store, to, db + Kept(crypto, p, Fetched(rounds)))
            <==> HasAllBefore(crypto, p, store, if from < to then from else to, db)
  {
    hide IsRun, Kept;
    var now, bound := db + Kept(crypto, p, Fetched(rounds)), if from < to then from else to;
    if HasAllBefore(crypto, p, store, to, now) {
      forall m | m in store && m.timestamp < bound && Decrypted(crypto, p, m).Some?
        ensures Decrypted(crypto, p, m).value in db
      {
        if Decrypted(crypto, p, m).value !in db {
          var other := KeptWasOpened(crypto, p, Fetched(rounds), Decrypted(crypto, p, m).value);
          FetchedAreOfTheRange(store, limit, from, to, rounds, other);
        }
      }
    }
    if HasAllBefore(crypto, p, store, bound, db) {
      forall m | m in store && m.timestamp < to && Decrypted(crypto, p, m).Some?
        ensures Decrypted(crypto, p, m).value in now
      {
        if m.timestamp >= bound { OpenedIsKept(crypto, p, Fetched(rounds), m); }
      }
    }
  }

  /** A fetched range that starts just behind the local messages brings all news that some room opens, and only news. */
  lemma NewsIsKept(crypto: Cryptography, p: Profile, store: seq<Message>, limit: nat, to: int, rounds: seq<Round>,
                   db: seq<Filed>)
    requires forall f | f in db :: f.message.timestamp >= 0
    requires IsRun(store, limit, StartOfSync(db, to), to, rounds) && FetchedAll(store, StartOfSync(db, to), to, rounds)
    requires forall round | round in rounds :: StartOfSync(db, to) <= round.from
    ensures forall m | m in store && IsNews(m, db, to) && Decrypted(crypto, p, m).Some? ::
              Decrypted(crypto, p, m).value in Kept(crypto, p, Fetched(rounds))
    ensures forall m | m in Fetched(rounds) :: IsNews(m, db, to)
  {
    hide IsRun, Kept, Decrypted, StartOfSync;
    forall m | m in store && IsNews(m, db, to) && Decrypted(crypto, p, m).Some?
      ensures Decrypted(crypto, p, m).value in Kept(crypto, p, Fetched(rounds))
    {
      SyncStartsJustBehind(db, to, m.timestamp);
      OpenedIsKept(crypto, p, Fetched(rounds), m);
    }
    forall m | m in Fetched(rounds) ensures IsNews(m, db, to) {
      FetchedAreOfTheRange(store, limit, StartOfSync(db, to), to, rounds, m);
      SyncStartsJustBehind(db, to, m.timestamp);
    }
  }

  /** What a synchronisation that began with the given local messages comes to. */
  ghost predicate BringsTheNews(crypto: Cryptography, p: Profile, store: seq<Message>, to: int, rounds: seq<Round>,
                                db: seq<Filed>)
  {
    && (forall m | m in store && IsNews(m, db, to) && Decrypted(crypto, p, m).Some? ::
          Decrypted(crypto, p, m).value in Kept(crypto, p, Fetched(rounds)))
    && forall m | m in Fetched(rounds) :: IsNews(m, db, to)
  }

  lemma NewsWhenServerHoldsOut(store: seq<Message>, limit: nat, to: int, rounds: seq<Round>, requestsAnswered: nat,
                               crypto: Cryptography, p: Profile, db: seq<Filed>)
    requires limit == ChatService.MESSAGE_COUNT_LIMIT && IsRun(store, limit, StartOfSync(db, to), to, rounds)
    requires Ended(limit, StartOfSync(db, to), to, rounds) || |rounds| == requestsAnswered
    requires forall f | f in db :: f.message.timestamp >= 0
    ensures Distinct(store) && NoOvertaking(store) ==>
              NowhereCrowded(store, 1000, 0, to) && requestsAnswered > to ==>
                BringsTheNews(crypto, p, store, to, rounds, db)
  {
    hide IsRun, NoOvertaking, Distinct, FetchedAll, HasAllBefore, Kept, StartOfSync, Decrypted, Crowded;
    if Distinct(store) && NoOvertaking(store) && NowhereCrowded(store, limit, 0, to) && requestsAnswered > to {
      var from := StartOfSync(db, to);
      SyncStartsJustBehind(db, to, from);
      assert NowhereCrowded(store, limit, from, to);
      PositionsIncrease(store, limit, from, to, rounds);
      EndedRunIsComplete(store, limit, from, to, rounds);
      NewsIsKept(crypto, p, store, limit, to, rounds, db);
    }
  }

  lemma CompleteWhenServerHoldsOut(store: seq<Message>, limit: nat, from: int, to: int, rounds: seq<Round>,
                                   requestsAnswered: nat, crypto: Cryptography, p: Profile, db: seq<Filed>)
    requires limit == ChatService.MESSAGE_COUNT_LIMIT && IsRun(store, limit, from, to, rounds)
    requires Ended(limit, from, to, rounds) || |rounds| == requestsAnswered
    ensures
      Distinct(store) && NoOvertaking(store) ==>
        NowhereCrowded(store, limit, from, to) && requestsAnswered > to - from ==>
          && FetchedAll(store, from, to, rounds)
          && (HasAllBefore(crypto, p, store, to, db + Kept(crypto, p, Fetched(rounds)))
              <==> HasAllBefore(crypto, p, store, if from < to then from else to, db))
  {
    hide IsRun, NoOvertaking, NowhereCrowded, Distinct, FetchedAll, HasAllBefore, Kept;
    if Distinct(store) && NoOvertaking(store) && NowhereCrowded(store, limit, from, to)
       && requestsAnswered > to - from {
      PositionsIncrease(store, limit, from, to, rounds);
      EndedRunIsComplete(store, limit, from, to, rounds);
      HasAllExactlyWhenItHadTheEarlier(crypto, p, store, limit, from, to, rounds, db);
    }
  }

  class ChatManager {
    const profileManager: ProfileManager
    var messageDb: seq<Filed>
    var chatHistoryIsSyncing: bool

    constructor (profileManager: ProfileManager)
      ensures this.profileManager == profileManager && messageDb == [] && !chatHistoryIsSyncing
    {
      this.profileManager := profileManager;
      messageDb, chatHistoryIsSyncing := [], false;
    }

    /** Tries the keys of all rooms of the message's type, in order. */
    method DecryptMessage(message: Message) returns (r: Option<Filed>)
      ensures r == Decrypted(profileManager.crypto, profileManager.InMemory(), message)
    {
      var rooms := profileManager.GetUserRoomsForChatType(message.chatType);
      for i := 0 to |rooms|
        invariant FirstOpening(profileManager.crypto, rooms, message.content)
                  == FirstOpening(profileManager.crypto, rooms[i..], message.content)
      {
        var decrypted := profileManager.crypto.decrypt(message.content, rooms[i].symmetricKey);
        if decrypted.Some? {
          return Some(Filed(rooms[i].id, Message(message.uuid, message.epoch, message.chatType, decrypted.value,
                                                 message.timestamp, message.sender)));
        }
        assert rooms[i..][1..] == rooms[i + 1..];
      }
      return None;
    }

    /** One request. Nothing comes back when the server is unavailable or refuses the range. */
    method GetAndSaveMessagesForTimeRange(server: ChatService, from: int, to: int, available: bool)
      returns (messageData: Option<TimeRangeMessages>)
      modifies this`messageDb
      ensures messageData.None? <==> !available || from >= to
      ensures messageData.None? ==> messageDb == old(messageDb)
      ensures messageData.Some? ==>
                var reply := messageData.value;
                && IsPage(server.messages, from, to, ChatService.MESSAGE_COUNT_LIMIT, reply.messages)
                && reply.limit == ChatService.MESSAGE_COUNT_LIMIT
                && reply.returnedTo == ReturnedTo(reply.messages, to)
                && messageDb == old(messageDb) + Kept(profileManager.crypto, profileManager.InMemory(), reply.messages)
    {
      hide IsPage, Kept, Decrypted;
      if !available { return None; }
      ghost var p := profileManager.InMemory();
      var reply := server.GetMessagesInTimeRange(from, to);
      if reply.Err? { return None; }
      var messages := reply.value.messages;
      KeptOfNothing(profileManager.crypto, p);
      for i := 0 to |messages|
        invariant messageDb == old(messageDb) + Kept(profileManager.crypto, p, messages[..i])
        invariant p == profileManager.InMemory()
      {
        KeptStep(profileManager.crypto, p, messages, i);
        var decrypted := DecryptMessage(messages[i]);
        if decrypted.Some? {
          messageDb := messageDb + [decrypted.value];
        }
      }
      assert messages[..|messages|] == messages;
      return Some(reply.value);
    }

    /**
     The whole synchronisation, from behind the newest local message up to a given time; the
     server answers a number of requests and is unavailable afterwards. Of a range without
     overtaking and without crowding all is fetched, if the server holds out for one request
     per millisecond. The client then has all messages exactly when it had all earlier ones: what
     is older than the newest local message is never fetched.
     */
    method SyncMessagesForAllRooms(server: ChatService, to: int, requestsAnswered: nat)
      returns (ghost rounds: seq<Round>)
      modifies this`messageDb, this`chatHistoryIsSyncing
      ensures !chatHistoryIsSyncing
      ensures var from := StartOfSync(old(messageDb), to);
              && IsRun(server.messages, ChatService.MESSAGE_COUNT_LIMIT, from, to, rounds)
              && (Ended(ChatService.MESSAGE_COUNT_LIMIT, from, to, rounds) || |rounds| == requestsAnswered)
      ensures messageDb == old(messageDb) + Kept(profileManager.crypto, profileManager.InMemory(), Fetched(rounds))
      ensures
        var from, crypto, p := StartOfSync(old(messageDb), to), profileManager.crypto, profileManager.InMemory();
        Distinct(server.messages) && NoOvertaking(server.messages) ==>
          NowhereCrowded(server.messages, ChatService.MESSAGE_COUNT_LIMIT, from, to) && requestsAnswered > to - from ==>
            && FetchedAll(server.messages, from, to, rounds)
            && (HasAllBefore(crypto, p, server.messages, to, messageDb)
                <==> HasAllBefore(crypto, p, server.messages, if from < to then from else to, old(messageDb)))
      ensures
        var crypto, p := profileManager.crypto, profileManager.InMemory();
        (forall f | f in old(messageDb) :: f.message.timestamp >= 0) ==>
          Distinct(server.messages) && NoOvertaking(server.messages) ==>
            NowhereCrowded(server.messages, 1000, 0, to) && requestsAnswered > to ==>
              BringsTheNews(crypto, p, server.messages, to, rounds, old(messageDb))
    {
      hide *;
      var fromTimestamp, answered := StartOfSync(messageDb, to), 0;
      ghost var from := fromTimestamp;
      chatHistoryIsSyncing := true;
      rounds := [];
      var messageData := GetAndSaveMessagesForTimeRange(server, fromTimestamp, to, answered < requestsAnswered);
      ghost var limit, p := ChatService.MESSAGE_COUNT_LIMIT, profileManager.InMemory();
      NoRounds(server.messages, limit, from, to);
      KeptOfNothing(profileManager.crypto, p);
      while messageData.Some?
        invariant chatHistoryIsSyncing && |rounds| == answered <= requestsAnswered && p == profileManager.InMemory()
        invariant IsRun(server.messages, limit, from, to, rounds)
        invariant Next(limit, from, to, rounds) == Some(fromTimestamp)
        invariant messageData.None? ==> fromTimestamp >= to || answered == requestsAnswered
        invariant messageData.Some? ==>
                    && fromTimestamp < to && answered < requestsAnswered
                    && messageData.value.limit == limit
                    && messageData.value.returnedTo == ReturnedTo(messageData.value.messages, to)
                    && IsPage(server.messages, fromTimestamp, to, limit, messageData.value.messages)
        invariant messageDb == old(messageDb) + Kept(profileManager.crypto, p, Fetched(rounds))
                               + (if messageData.Some? then Kept(profileManager.crypto, p,
                                  messageData.value.messages) else [])
        decreases requestsAnswered - answered
      {
        ghost var round := Round(fromTimestamp, messageData.value.messages);
        LastRound(server.messages, limit, from, to, rounds, round);
        KeptOfConcat(profileManager.crypto, p, Fetched(rounds), round.page);
        rounds, answered := rounds + [round], answered + 1;
        assert messageDb == old(messageDb) + Kept(profileManager.crypto, p, Fetched(rounds));
        if |messageData.value.messages| == messageData.value.limit {
          fromTimestamp := messageData.value.returnedTo + 1;
          messageData := GetAndSaveMessagesForTimeRange(server, fromTimestamp, to, answered < requestsAnswered);
        } else {
          break;
        }
      }
      chatHistoryIsSyncing := false;
      NextTellsTheEnd(limit, from, to, rounds);
      CompleteWhenServerHoldsOut(server.messages, limit, from, to, rounds, requestsAnswered,
                                 profileManager.crypto, p, old(messageDb));
      if forall f | f in old(messageDb) :: f.message.timestamp >= 0 {
        NewsWhenServerHoldsOut(server.messages, limit, to, rounds, requestsAnswered, profileManager.crypto, p,
                               old(messageDb));
      }
    }
  }
}
