/**
 From the sender's room to the receiver's: a text that is sent, accepted, stored and fetched is
 filed unchanged, also under the key that two clients have agreed on.
 */
module EndToEnd {
  import opened Prelude
  import opened MerkleTree
  import opened UserServices
  import opened Admission
  import opened AdmissionRuns
  import opened HistoryRuns
  import opened Profiles
  import opened ChatClient
  import opened KeyExchange
  import opened KeyExchangeClient

  /** The stored message says just what the event's message said, at the time and under the number it was given. */
  predicate Carries(m: Message, e: Event) {
    && m.content == e.message.content && m.chatType == e.message.chatType && m.sender == e.message.sender
    && m.epoch == e.message.epoch && m.timestamp == e.timestamp && m.uuid == e.uuid
  }

  ghost predicate Carried(m: Message, events: seq<Event>) {
    exists e :: e in events && Carries(m, e)
  }

  lemma CarriedByMore(m: Message, events: seq<Event>)
    requires events != []
    ensures Carried(m, events[..|events| - 1]) || Carries(m, events[|events| - 1]) ==> Carried(m, events)
  {
    hide Carries;
    var last := events[|events| - 1];
    assert last in events;
    if Carried(m, events[..|events| - 1]) {
      var e :| e in events[..|events| - 1] && Carries(m, e);
      assert e in events;
    }
  }

  /** Every message that a run stores, and every one it announces, carries an event of the run. */
  lemma {:induction false} StoredMessagesCarryTheirEvents(cfg: Config, s: Server, events: seq<Event>)
    requires ValidServer(cfg, s)
    ensures
      var now := Run(cfg, s, events);
      && s.messages <= now.messages && s.published <= now.published
      && (forall i | |s.messages| <= i < |now.messages| :: Carried(now.messages[i], events))
      && forall i | |s.published| <= i < |now.published| ::
           now.published[i].TreeUpdate? || Carried(now.published[i].message, events)
    decreases |events|
  {
    hide ValidServer, Step, Carries, Carried;
    if events != [] {
      var earlier, last := events[..|events| - 1], events[|events| - 1];
      var before, now := Run(cfg, s, earlier), Run(cfg, s, events);
      StoredMessagesCarryTheirEvents(cfg, s, earlier);
      StepCarriesItsEvent(cfg, before, last);
      forall i | |s.messages| <= i < |now.messages| ensures Carried(now.messages[i], events) {
        CarriedByMore(now.messages[i], events);
        if i < |before.messages| { assert now.messages[i] == before.messages[i]; }
      }
      forall i | |s.published| <= i < |now.published| && now.published[i].Broadcast?
        ensures Carried(now.published[i].message, events)
      {
        CarriedByMore(now.published[i].message, events);
        if i < |before.published| { assert now.published[i] == before.published[i]; }
      }
    }
  }

  lemma StepCarriesItsEvent(cfg: Config, s: Server, event: Event)
    requires ValidServer(cfg, s)
    ensures
      var (now, outcome) := Step(cfg, s, event);
      && s.messages <= now.messages && s.published <= now.published
      && |now.messages| == |s.messages| + (if outcome.Accepted? then 1 else 0)
      && (outcome.Accepted? ==> Carries(now.messages[|s.messages|], event))
      && forall i | |s.published| <= i < |now.published| ::
           now.published[i].TreeUpdate? || Carries(now.published[i].message, event)
  {
    hide cfg.tree.Shape, HoldsSlots, StoredRoot, IsZkProofValid, VerifyEpoch, IsSpam, RecoverSecret, BanConflicts,
         FirstLeaf, cfg.tree.SetPath;
  }

  lemma {:induction false} AcceptedMessageStays(cfg: Config, s: Server, events: seq<Event>, k: nat) returns (m: Message)
    requires ValidServer(cfg, s) && k < |events| && LastOutcome(cfg, s, events[..k + 1]).Accepted?
    ensures m in Run(cfg, s, events).messages && Carries(m, events[k])
    decreases |events|
  {
    hide ValidServer, Step, Carries;
    var earlier, last := events[..|events| - 1], events[|events| - 1];
    StepCarriesItsEvent(cfg, Run(cfg, s, earlier), last);
    if k == |events| - 1 {
      assert events[..k + 1] == events;
      m := Run(cfg, s, events).messages[|Run(cfg, s, earlier).messages|];
    } else {
      assert earlier[..k + 1] == events[..k + 1];
      m := AcceptedMessageStays(cfg, s, earlier, k);
    }
  }

  /**
     A text sent to a room and accepted by the server is read, unchanged, by every synchronisation
     that brings the news to a client with a room of that type and key.
   */
  lemma SentTextIsReadAfterSync(cfg: Config, s: Server, events: seq<Event>, k: nat, crypto: Cryptography,
                                sender: Profile, id: string, text: string, receiver: Profile,
                                to: int, rounds: seq<Round>, db: seq<Filed>)
    requires ValidServer(cfg, s) && k < |events| && LastOutcome(cfg, s, events[..k + 1]).Accepted?
    requires crypto.Authenticated() && WellFormed(receiver)
    requires Sent(crypto, sender, id, text) == Some((events[k].message.chatType, events[k].message.content))
    requires HasKey(RoomsForChatType(receiver, events[k].message.chatType), RoomById(sender, id).value.1.symmetricKey)
    requires BringsTheNews(crypto, receiver, Run(cfg, s, events).messages, to, rounds, db)
    requires 0 <= events[k].timestamp < to && forall f | f in db :: f.message.timestamp < events[k].timestamp
    ensures exists f :: f in Kept(crypto, receiver, Fetched(rounds))
                        && f.message.content == text && f.message.sender == events[k].message.sender
                        && f.message.uuid == events[k].uuid && f.message.timestamp == events[k].timestamp
  {
    hide ValidServer, Run, WellFormed, crypto.Authenticated, LastOutcome, Sent, RoomById, RoomsForChatType, HasKey,
         Kept,
         Fetched, FirstOpening;
    var m := AcceptedMessageStays(cfg, s, events, k);
    SentTextIsFiledUnderItsRoom(crypto, sender, receiver, id, text, 0);
    assert IsNews(m, db, to);
    assert Decrypted(crypto, receiver, m).Some?;
    var f := Decrypted(crypto, receiver, m).value;
    assert f in Kept(crypto, receiver, Fetched(rounds)) && f.message.content == text;
  }

  /** The key a profile keeps for a recipient is that of the client of the state machine. */
  lemma ClientKey(p: Profile, rooms: map<string, DhRoom>, i: nat)
    requires WellFormed(p) && i < |p.directRooms| && RoomsByRecipient(p.directRooms) == rooms
    ensures p.directRooms[i].recipientPublicKey in rooms
    ensures rooms[p.directRooms[i].recipientPublicKey].symmetricKey == p.directRooms[i].room.symmetricKey
  {
    hide RoomsByRecipient;
    RoomIsFiled(p.directRooms, i);
  }

  /**
     Over every interleaving of the key exchange: what u sends in its direct room for v, once
     both have a key, v reads unchanged, and files under its room for u unless an earlier
     direct room has the same key.
   */
  lemma DirectTextArrives(crypto: Cryptography, start: System, actions: seq<KeyExchange.Action>, u: string, v: string,
                          sender: Profile, receiver: Profile, i: nat, j: nat, text: string, m: Message)
    requires crypto.Authenticated() && crypto.DiffieHellman() && Initial(start)
    requires WellFormed(sender) && WellFormed(receiver)
    requires var s := DoAll(crypto, start, actions);
             && u in s.clients && RoomsByRecipient(sender.directRooms) == s.clients[u].rooms
             && v in s.clients && RoomsByRecipient(receiver.directRooms) == s.clients[v].rooms
    requires i < |sender.directRooms| && sender.directRooms[i].recipientPublicKey == v
    requires j < |receiver.directRooms| && receiver.directRooms[j].recipientPublicKey == u
    requires sender.directRooms[i].room.symmetricKey != "" && receiver.directRooms[j].room.symmetricKey != ""
    requires m.chatType == "DIRECT"
    requires crypto.encrypt(text, sender.directRooms[i].room.symmetricKey) == Some(m.content)
    ensures
      var filed, room := Decrypted(crypto, receiver, m), receiver.directRooms[j].room;
      && filed.Some? && filed.value.message == m.(content := text)
      && ((forall k | 0 <= k < j :: receiver.directRooms[k].room.symmetricKey != room.symmetricKey) ==>
            filed == Some(Filed(room.id, m.(content := text))))
  {
    hide DoAll, Initial, WellFormed, RoomsByRecipient, crypto.DiffieHellman, crypto.Authenticated, Decrypted;
    var s := DoAll(crypto, start, actions);
    ClientKey(sender, s.clients[u].rooms, i);
    ClientKey(receiver, s.clients[v].rooms, j);
    KeysAgree(crypto, start, actions, u, v);
    var room := receiver.directRooms[j].room;
    assert room.symmetricKey == sender.directRooms[i].room.symmetricKey;
    var first := FirstDirectWithKey(receiver.directRooms, j);
    TextIsFiledUnderTheFirstRoom(crypto, receiver, m, text, receiver.directRooms[first].room);
    if forall k | 0 <= k < j :: receiver.directRooms[k].room.symmetricKey != room.symmetricKey {
      TextIsFiledUnderTheFirstRoom(crypto, receiver, m, text, room);
    }
  }

  lemma {:induction false} FirstDirectWithKey(rooms: seq<Direct>, j: nat) returns (i: nat)
    requires j < |rooms|
    ensures i <= j && rooms[i].room.symmetricKey == rooms[j].room.symmetricKey
    ensures forall k | 0 <= k < i :: rooms[k].room.symmetricKey != rooms[j].room.symmetricKey
    decreases j
  {
    i := j;
    if k :| 0 <= k < j && rooms[k].room.symmetricKey == rooms[j].room.symmetricKey {
      i := FirstDirectWithKey(rooms, k);
    }
  }
}
