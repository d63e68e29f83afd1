/**
 The local profile of a user: contacts, rooms, and the copy of both in storage. `Apply` is
 the meaning of one operation over the profile as a value; `ProfileManager` is the object.
 */
module Profiles {
  import opened Prelude

  /** The client's cryptography. Encryption and decryption throw on unusable input. */
  datatype Cryptography = Cryptography(
    encrypt: (string, string) -> Option<string>,
    decrypt: (string, string) -> Option<string>,
    publicOf: string -> string,
    deriveShared: (string, string) -> string,
    contentHash: (string, string) -> string)
  {
    /** A ciphertext opens under the key it was made with, and under no other. */
    ghost predicate Authenticated() {
      forall text, key, cipher, other ::
        encrypt(text, key) == Some(cipher) ==> decrypt(cipher, other) == if other == key then Some(text) else None
    }

    /** Both ends of a Diffie-Hellman exchange derive one secret, which is never empty. */
    ghost predicate DiffieHellman() {
      && (forall a, b :: deriveShared(a, publicOf(b)) == deriveShared(b, publicOf(a)))
      && forall a, key :: deriveShared(a, key) != ""
    }

    ghost predicate CollisionFree() {
      forall a, b, c, d :: contentHash(a, b) == contentHash(c, d) ==> a == c && b == d
    }
  }

  datatype Contact = Contact(name: string, publicKey: string)

  datatype Room = Room(id: string, name: string, symmetricKey: string)

  datatype Direct = Direct(room: Room, recipientPublicKey: string, dhPublicKey: string, dhPrivateKey: string)

  datatype Profile = Profile(
    contacts: map<string, Contact>,
    publicRooms: seq<Room>,
    privateRooms: seq<Room>,
    directRooms: seq<Direct>)

  datatype Operation =
    | InsertContact(name: string, publicKey: string)
    | UpdateContact(oldName: string, newName: string, publicKey: string)
    | DeleteContact(name: string)
    | AddPublic(room: Room)
    | AddPrivate(room: Room)
    | AddDirect(direct: Direct)
    | DeriveKey(position: nat, dhPublicKey: string)

  predicate KeyTaken(contacts: map<string, Contact>, publicKey: string, ignored: set<string>) {
    exists name | name in contacts :: name !in ignored && contacts[name].publicKey == publicKey
  }

  predicate HasKey(rooms: seq<Room>, key: string) {
    exists i | 0 <= i < |rooms| :: rooms[i].symmetricKey == key
  }

  predicate HasRecipient(rooms: seq<Direct>, publicKey: string) {
    exists i | 0 <= i < |rooms| :: rooms[i].recipientPublicKey == publicKey
  }

  function Derived(crypto: Cryptography, direct: Direct, dhPublicKey: string): Direct {
    direct.(room := direct.room.(symmetricKey := crypto.deriveShared(direct.dhPrivateKey, dhPublicKey)))
  }

  /** The profile after an operation, or nothing when the operation throws. */
  function Apply(crypto: Cryptography, p: Profile, op: Operation): Option<Profile> {
    match op
    case InsertContact(name, publicKey) =>
      if name in p.contacts || KeyTaken(p.contacts, publicKey, {}) then None
      else Some(p.(contacts := p.contacts[name := Contact(name, publicKey)]))
    case UpdateContact(oldName, newName, publicKey) =>
      if oldName !in p.contacts || newName in p.contacts || KeyTaken(p.contacts, publicKey, {oldName}) then None
      else Some(p.(contacts := (p.contacts - {oldName})[newName := Contact(newName, publicKey)]))
    case DeleteContact(name) =>
      if name !in p.contacts then None else Some(p.(contacts := p.contacts - {name}))
    case AddPublic(room) =>
      if HasKey(p.publicRooms, room.symmetricKey) then None else Some(p.(publicRooms := p.publicRooms + [room]))
    case AddPrivate(room) =>
      if HasKey(p.privateRooms, room.symmetricKey) then None else Some(p.(privateRooms := p.privateRooms + [room]))
    case AddDirect(direct) =>
      if HasRecipient(p.directRooms, direct.recipientPublicKey) then None
      else Some(p.(directRooms := p.directRooms + [direct]))
    case DeriveKey(position, dhPublicKey) =>
      if position >= |p.directRooms| then None
      else Some(p.(directRooms := p.directRooms[position := Derived(crypto, p.directRooms[position], dhPublicKey)]))
  }

  // ----- what every operation keeps -----

  ghost predicate DistinctKeys(rooms: seq<Room>) {
    forall i, j | 0 <= i < j < |rooms| :: rooms[i].symmetricKey != rooms[j].symmetricKey
  }

  ghost predicate WellFormed(p: Profile) {
    && (forall name | name in p.contacts :: p.contacts[name].name == name)
    && (forall name, other | name in p.contacts && other in p.contacts && name != other ::
          p.contacts[name].publicKey != p.contacts[other].publicKey)
    && DistinctKeys(p.publicRooms)
    && DistinctKeys(p.privateRooms)
    && forall i, j | 0 <= i < j < |p.directRooms| ::
         p.directRooms[i].recipientPublicKey != p.directRooms[j].recipientPublicKey
  }

  lemma RecipientsDiffer(p: Profile, i: nat, j: nat)
    requires WellFormed(p) && i < |p.directRooms| && j < |p.directRooms| && i != j
    ensures p.directRooms[i].recipientPublicKey != p.directRooms[j].recipientPublicKey
  {
  }

  /** An operation that throws leaves the profile as it is. */
  function After(crypto: Cryptography, p: Profile, ops: seq<Operation>): Profile {
    if ops == [] then p
    else
      var before := After(crypto, p, ops[..|ops| - 1]);
      match Apply(crypto, before, ops[|ops| - 1])
      case None => before
      case Some(q) => q
  }

  lemma ApplyKeepsWellFormed(crypto: Cryptography, p: Profile, op: Operation)
    requires WellFormed(p) && Apply(crypto, p, op).Some?
    ensures WellFormed(Apply(crypto, p, op).value)
  {
  }

  /**
     Whatever is done to a profile: contacts stay filed under their own name with distinct
     public keys, no two public and no two private rooms share a key, no two direct rooms
     share a recipient, and no direct room changes its recipient or key pair.
   */
  lemma {:induction false} OperationsKeepWellFormed(crypto: Cryptography, p: Profile, ops: seq<Operation>)
    requires WellFormed(p)
    ensures WellFormed(After(crypto, p, ops))
    ensures var q := After(crypto, p, ops);
            && p.publicRooms <= q.publicRooms && p.privateRooms <= q.privateRooms
            && |p.directRooms| <= |q.directRooms|
            && forall i | 0 <= i < |p.directRooms| ::
                 q.directRooms[i].(room := p.directRooms[i].room) == p.directRooms[i]
                 && q.directRooms[i].room.id == p.directRooms[i].room.id
    decreases |ops|
  {
    hide WellFormed;
    if ops != [] {
      OperationsKeepWellFormed(crypto, p, ops[..|ops| - 1]);
      var before := After(crypto, p, ops[..|ops| - 1]);
      if Apply(crypto, before, ops[|ops| - 1]).Some? {
        ApplyKeepsWellFormed(crypto, before, ops[|ops| - 1]);
      }
    }
  }

  /** Updating a contact is deleting it and inserting the new one, but it needs a new name. */
  lemma UpdateIsDeleteThenInsert(crypto: Cryptography, p: Profile, oldName: string, newName: string, publicKey: string)
    requires newName != oldName
    ensures
      Apply(crypto, p, UpdateContact(oldName, newName, publicKey))
      == match Apply(crypto, p, DeleteContact(oldName))
         case None => None
         case Some(q) => Apply(crypto, q, InsertContact(newName, publicKey))
    ensures Apply(crypto, p, UpdateContact(oldName, oldName, publicKey)) == None
  {
    if oldName in p.contacts {
      var rest := p.contacts - {oldName};
      if KeyTaken(rest, publicKey, {}) {
        var name :| name in rest && rest[name].publicKey == publicKey;
        assert name in p.contacts && name !in {oldName};
      }
      if KeyTaken(p.contacts, publicKey, {oldName}) {
        var name :| name in p.contacts && name !in {oldName} && p.contacts[name].publicKey == publicKey;
        assert name in rest && name !in {};
      }
    }
  }

  /** Deleting a contact that was just inserted gives the profile back. */
  lemma DeleteUndoesInsert(crypto: Cryptography, p: Profile, name: string, publicKey: string)
    requires Apply(crypto, p, InsertContact(name, publicKey)).Some?
    ensures Apply(crypto, Apply(crypto, p, InsertContact(name, publicKey)).value, DeleteContact(name)) == Some(p)
  {
    assert p.contacts[name := Contact(name, publicKey)] - {name} == p.contacts;
  }

  /** When each contact operation succeeds, and whom each name stands for afterwards. */
  lemma ContactsChangeAsAsked(crypto: Cryptography, p: Profile, op: Operation, name: string)
    requires op.InsertContact? || op.UpdateContact? || op.DeleteContact?
    ensures
      var q := Apply(crypto, p, op);
      && (q.Some? <==>
            match op
            case InsertContact(n, key) =>
              n !in p.contacts && forall other | other in p.contacts :: p.contacts[other].publicKey != key
            case UpdateContact(was, n, key) =>
              && was in p.contacts && n !in p.contacts
              && forall other | other in p.contacts :: p.contacts[other].publicKey == key ==> other == was
            case DeleteContact(n) => n in p.contacts)
      && (q.Some? ==>
            && q.value == p.(contacts := q.value.contacts)
            && (name in q.value.contacts <==>
                  (if op.DeleteContact? then name in p.contacts && name != op.name
                   else if op.InsertContact? then name in p.contacts || name == op.name
                   else (name in p.contacts && name != op.oldName) || name == op.newName))
            && (name in q.value.contacts ==>
                  q.value.contacts[name] ==
                  (if op.InsertContact? && name == op.name then Contact(name, op.publicKey)
                   else if op.UpdateContact? && name == op.newName then Contact(name, op.publicKey)
                   else p.contacts[name])))
  {
  }

  /** An operation of the run that did not throw. */
  ghost predicate Succeeded(crypto: Cryptography, p: Profile, ops: seq<Operation>, op: Operation) {
    exists k | 0 <= k < |ops| :: ops[k] == op && Apply(crypto, After(crypto, p, ops[..k]), op).Some?
  }

  lemma SucceededEarlier(crypto: Cryptography, p: Profile, ops: seq<Operation>, op: Operation)
    requires ops != [] && Succeeded(crypto, p, ops[..|ops| - 1], op)
    ensures Succeeded(crypto, p, ops, op)
  {
    hide Apply, After;
    var earlier := ops[..|ops| - 1];
    var k :| 0 <= k < |earlier| && earlier[k] == op && Apply(crypto, After(crypto, p, earlier[..k]), op).Some?;
    assert earlier[..k] == ops[..k];
    assert ops[k] == op && Apply(crypto, After(crypto, p, ops[..k]), op).Some?;
  }

  /**
     Rooms come from successful additions only: of public and private rooms the very room, of a
     direct room all but its key.
     */
  lemma {:induction false} RoomsComeFromAdditions(crypto: Cryptography, p: Profile, ops: seq<Operation>)
    ensures
      var q := After(crypto, p, ops);
      && (forall room | room in q.publicRooms :: room in p.publicRooms || Succeeded(crypto, p, ops, AddPublic(room)))
      && (forall room | room in q.privateRooms :: room in p.privateRooms || Succeeded(crypto, p, ops, AddPrivate(room)))
      && (forall d | d in q.directRooms :: exists key :: DirectComes(crypto, p, ops, d, key))
    decreases |ops|
  {
    hide HasKey, HasRecipient, KeyTaken, Succeeded, DirectComes;
    var q := After(crypto, p, ops);
    if ops == [] {
      forall d | d in q.directRooms ensures exists key :: DirectComes(crypto, p, ops, d, key) {
        DirectWasThere(crypto, p, ops, d);
      }
    } else {
      var earlier, op := ops[..|ops| - 1], ops[|ops| - 1];
      RoomsComeFromAdditions(crypto, p, earlier);
      var before := After(crypto, p, earlier);
      if Apply(crypto, before, op).Some? { LastSucceeded(crypto, p, ops); }
      forall room | Succeeded(crypto, p, earlier, AddPublic(room)) ensures Succeeded(crypto, p, ops, AddPublic(room)) {
        SucceededEarlier(crypto, p, ops, AddPublic(room));
      }
      forall room | Succeeded(crypto, p, earlier, AddPrivate(room))
        ensures Succeeded(crypto, p, ops, AddPrivate(room))
      {
        SucceededEarlier(crypto, p, ops, AddPrivate(room));
      }
      forall d | d in q.directRooms ensures exists key :: DirectComes(crypto, p, ops, d, key) {
        if d in before.directRooms {
          var key :| DirectComes(crypto, p, earlier, d, key);
          DirectCameEarlier(crypto, p, ops, d, d, key);
        } else if op.DeriveKey? {
          var was := before.directRooms[op.position];
          assert was in before.directRooms;
          var key :| DirectComes(crypto, p, earlier, was, key);
          DirectCameEarlier(crypto, p, ops, was, d, key);
        } else {
          DirectWasAdded(crypto, p, ops, d);
        }
      }
    }
  }

  function WithKey(d: Direct, key: string): Direct {
    d.(room := d.room.(symmetricKey := key))
  }

  /** The direct room, with the given key, was there at first or was added. */
  ghost predicate DirectComes(crypto: Cryptography, p: Profile, ops: seq<Operation>, d: Direct, key: string) {
    WithKey(d, key) in p.directRooms || Succeeded(crypto, p, ops, AddDirect(WithKey(d, key)))
  }

  lemma DirectWasThere(crypto: Cryptography, p: Profile, ops: seq<Operation>, d: Direct)
    requires d in p.directRooms
    ensures exists key :: DirectComes(crypto, p, ops, d, key)
  {
    assert WithKey(d, d.room.symmetricKey) == d;
    assert DirectComes(crypto, p, ops, d, d.room.symmetricKey);
  }

  lemma DirectWasAdded(crypto: Cryptography, p: Profile, ops: seq<Operation>, d: Direct)
    requires Succeeded(crypto, p, ops, AddDirect(d))
    ensures exists key :: DirectComes(crypto, p, ops, d, key)
  {
    hide Succeeded;
    assert WithKey(d, d.room.symmetricKey) == d;
    assert DirectComes(crypto, p, ops, d, d.room.symmetricKey);
  }

  lemma DirectCameEarlier(crypto: Cryptography, p: Profile, ops: seq<Operation>, was: Direct, d: Direct, key: string)
    requires ops != [] && DirectComes(crypto, p, ops[..|ops| - 1], was, key)
    requires d == WithKey(was, d.room.symmetricKey)
    ensures exists k :: DirectComes(crypto, p, ops, d, k)
  {
    hide Succeeded;
    assert WithKey(d, key) == WithKey(was, key);
    if Succeeded(crypto, p, ops[..|ops| - 1], AddDirect(WithKey(was, key))) {
      SucceededEarlier(crypto, p, ops, AddDirect(WithKey(was, key)));
    }
    assert DirectComes(crypto, p, ops, d, key);
  }

  lemma LastSucceeded(crypto: Cryptography, p: Profile, ops: seq<Operation>)
    requires ops != [] && Apply(crypto, After(crypto, p, ops[..|ops| - 1]), ops[|ops| - 1]).Some?
    ensures Succeeded(crypto, p, ops, ops[|ops| - 1])
  {
    hide Apply, After;
    assert ops[|ops| - 1] == ops[|ops| - 1];
  }

  // ----- rooms and their messages -----

  const PUBLIC := "PUBLIC"
  const PRIVATE := "PRIVATE"
  const DIRECT := "DIRECT"

  function RoomsOf(directRooms: seq<Direct>): (r: seq<Room>)
    ensures |r| == |directRooms|
    ensures forall i | 0 <= i < |r| :: r[i] == directRooms[i].room
  {
    if directRooms == [] then [] else RoomsOf(directRooms[..|directRooms| - 1]) + [directRooms[|directRooms| - 1].room]
  }

  function RoomsForChatType(p: Profile, chatType: string): seq<Room> {
    if chatType == PUBLIC then p.publicRooms
    else if chatType == PRIVATE then p.privateRooms
    else if chatType == DIRECT then RoomsOf(p.directRooms)
    else []
  }

  function FirstRoom(rooms: seq<Room>, id: string): Option<Room> {
    if rooms == [] then None
    else if rooms[0].id == id then Some(rooms[0])
    else FirstRoom(rooms[1..], id)
  }

  /** The room with an id and its type; public rooms are looked up first, direct rooms last. */
  function RoomById(p: Profile, id: string): Option<(string, Room)> {
    match FirstRoom(p.publicRooms, id)
    case Some(room) => Some((PUBLIC, room))
    case None =>
      match FirstRoom(p.privateRooms, id)
      case Some(room) => Some((PRIVATE, room))
      case None =>
        match FirstRoom(RoomsOf(p.directRooms), id)
        case Some(room) => Some((DIRECT, room))
        case None => None
  }

  /** The chat type and ciphertext that go out when a text is sent to a room. */
  function Sent(crypto: Cryptography, p: Profile, id: string, text: string): Option<(string, string)> {
    match RoomById(p, id)
    case None => None
    case Some(found) =>
      match crypto.encrypt(text, found.1.symmetricKey)
      case None => None
      case Some(cipher) => Some((found.0, cipher))
  }

  /** The first room whose key opens a ciphertext, with the text. */
  function FirstOpening(crypto: Cryptography, rooms: seq<Room>, cipher: string): Option<(string, string)> {
    if rooms == [] then None
    else
      match crypto.decrypt(cipher, rooms[0].symmetricKey)
      case Some(text) => Some((rooms[0].id, text))
      case None => FirstOpening(crypto, rooms[1..], cipher)
  }

  /** A text opens under the first room with its key, and under no room if none has it. */
  lemma {:induction false} FirstRoomWithTheKeyOpens(crypto: Cryptography, rooms: seq<Room>, text: string, key: string,
                                                    i: nat)
    requires crypto.Authenticated() && crypto.encrypt(text, key).Some? && i <= |rooms|
    requires forall j | 0 <= j < i :: rooms[j].symmetricKey != key
    requires i < |rooms| ==> rooms[i].symmetricKey == key
    ensures FirstOpening(crypto, rooms, crypto.encrypt(text, key).value)
            == if i < |rooms| then Some((rooms[i].id, text)) else None
    decreases |rooms|
  {
    if i > 0 { FirstRoomWithTheKeyOpens(crypto, rooms[1..], text, key, i - 1); }
  }

  lemma {:induction false} FirstWithKey(rooms: seq<Room>, key: string) returns (i: nat)
    ensures i <= |rooms| && (i < |rooms| ==> rooms[i].symmetricKey == key)
    ensures forall j | 0 <= j < i :: rooms[j].symmetricKey != key
    decreases |rooms|
  {
    i := 0;
    if rooms != [] && rooms[0].symmetricKey != key {
      i := FirstWithKey(rooms[1..], key);
      i := i + 1;
    }
  }

  /** The rooms of each type, and none of any other. */
  lemma RoomsOfEachType(p: Profile)
    ensures RoomsForChatType(p, "PUBLIC") == p.publicRooms && RoomsForChatType(p, "PRIVATE") == p.privateRooms
    ensures |RoomsForChatType(p, "DIRECT")| == |p.directRooms|
    ensures forall i | 0 <= i < |p.directRooms| :: RoomsForChatType(p, "DIRECT")[i] == p.directRooms[i].room
    ensures forall chatType | chatType !in {"PUBLIC", "PRIVATE", "DIRECT"} :: RoomsForChatType(p, chatType) == []
  {
  }

  /**
     A text sent to a room is read by exactly the profiles that hold a room of that type with
     the sender's key; each reads the text unchanged and files it under its first such room,
     which for public and private rooms is the only one.
   */
  lemma SentTextIsFiledUnderItsRoom(crypto: Cryptography, sender: Profile, receiver: Profile, id: string,
                                    text: string, i: nat)
    requires crypto.Authenticated() && WellFormed(receiver) && Sent(crypto, sender, id, text).Some?
    ensures
      var (chatType, cipher) := Sent(crypto, sender, id, text).value;
      var rooms := RoomsForChatType(receiver, chatType);
      var key := RoomById(sender, id).value.1.symmetricKey;
      var found := FirstOpening(crypto, rooms, cipher);
      && (HasKey(rooms, key) <==> found.Some?)
      && (found.Some? ==> found.value.1 == text)
      && (i < |rooms| && rooms[i].symmetricKey == key
          && (chatType == DIRECT ==> forall j | 0 <= j < i :: rooms[j].symmetricKey != key) ==>
            found == Some((rooms[i].id, text)))
  {
    var (chatType, cipher) := Sent(crypto, sender, id, text).value;
    var rooms := RoomsForChatType(receiver, chatType);
    var key := RoomById(sender, id).value.1.symmetricKey;
    var first := FirstWithKey(rooms, key);
    FirstRoomWithTheKeyOpens(crypto, rooms, text, key, first);
  }

  /**
     A sender reads its own message back in the room it was sent to, also when two rooms share
     an id; of direct rooms the same is said if they have different keys.
   */
  lemma SenderFilesItsOwnMessage(crypto: Cryptography, p: Profile, id: string, text: string)
    requires crypto.Authenticated() && WellFormed(p) && Sent(crypto, p, id, text).Some?
    requires Sent(crypto, p, id, text).value.0 == DIRECT ==> DistinctKeys(RoomsOf(p.directRooms))
    ensures var (chatType, cipher) := Sent(crypto, p, id, text).value;
            FirstOpening(crypto, RoomsForChatType(p, chatType), cipher) == Some((id, text))
  {
    var (chatType, room) := RoomById(p, id).value;
    var i := FirstRoomIsThere(RoomsForChatType(p, chatType), id);
    SentTextIsFiledUnderItsRoom(crypto, p, p, id, text, i);
  }

  predicate HasId(rooms: seq<Room>, id: string) {
    exists i | 0 <= i < |rooms| :: rooms[i].id == id
  }

  lemma {:induction false} FirstRoomExactly(rooms: seq<Room>, id: string)
    ensures FirstRoom(rooms, id).Some? <==> HasId(rooms, id)
    decreases |rooms|
  {
    if rooms != [] {
      FirstRoomExactly(rooms[1..], id);
      if HasId(rooms[1..], id) {
        var i :| 0 <= i < |rooms| - 1 && rooms[1..][i].id == id;
        assert rooms[i + 1].id == id;
      }
      if HasId(rooms, id) && rooms[0].id != id {
        var i :| 0 <= i < |rooms| && rooms[i].id == id;
        assert rooms[1..][i - 1].id == id;
      }
    }
  }

  /**
     An id names a public room if there is one with it, else a private room, else a direct one;
     a text is sent exactly when some room has the id and its key can encrypt, with that type.
   */
  lemma SentExactlyToTheNamedRoom(crypto: Cryptography, p: Profile, id: string, text: string)
    ensures
      var target := RoomById(p, id);
      && (target.None? <==>
            !HasId(p.publicRooms, id) && !HasId(p.privateRooms, id) && !HasId(RoomsOf(p.directRooms), id))
      && (target.Some? ==>
            && target.value.0 == (if HasId(p.publicRooms, id) then "PUBLIC"
                                 else if HasId(p.privateRooms, id) then "PRIVATE" else "DIRECT")
            && target.value.1 in RoomsForChatType(p, target.value.0) && target.value.1.id == id)
      && (Sent(crypto, p, id, text).Some? <==> target.Some? && crypto.encrypt(text, target.value.1.symmetricKey).Some?)
      && (Sent(crypto, p, id, text).Some? ==> Sent(crypto, p, id, text).value.0 == target.value.0)
  {
    FirstRoomExactly(p.publicRooms, id);
    FirstRoomExactly(p.privateRooms, id);
    FirstRoomExactly(RoomsOf(p.directRooms), id);
    if RoomById(p, id).Some? {
      var i := FirstRoomIsThere(RoomsForChatType(p, RoomById(p, id).value.0), id);
    }
  }

  lemma {:induction false} FirstRoomIsThere(rooms: seq<Room>, id: string) returns (i: nat)
    requires FirstRoom(rooms, id).Some?
    ensures i < |rooms| && rooms[i] == FirstRoom(rooms, id).value && rooms[i].id == id
    decreases |rooms|
  {
    i := 0;
    if rooms[0].id != id {
      i := FirstRoomIsThere(rooms[1..], id);
      i := i + 1;
    }
  }

  /** The operation that adds a public or a private room. */
  function AddOf(chatType: string, room: Room): Operation {
    if chatType == "PUBLIC" then AddPublic(room) else AddPrivate(room)
  }

  /**
     Adding a public or private room succeeds exactly when no room of the type has its key. From
     then on, whatever is done, a text encrypted under that key is opened by a room of the type
     that has it, and if the addition succeeded it is filed under the added room.
   */
  lemma AddedRoomOpens(crypto: Cryptography, p: Profile, chatType: string, room: Room, ops: seq<Operation>,
                       text: string)
    requires crypto.Authenticated() && WellFormed(p) && (chatType == "PUBLIC" || chatType == "PRIVATE")
    requires crypto.encrypt(text, room.symmetricKey).Some?
    ensures
      var added := Apply(crypto, p, AddOf(chatType, room)).Some?;
      var rooms := RoomsForChatType(After(crypto, After(crypto, p, [AddOf(chatType, room)]), ops), chatType);
      var found := FirstOpening(crypto, rooms, crypto.encrypt(text, room.symmetricKey).value);
      && (added <==> forall x | x in RoomsForChatType(p, chatType) :: x.symmetricKey != room.symmetricKey)
      && (exists i :: 0 <= i < |rooms| && rooms[i].symmetricKey == room.symmetricKey
                      && found == Some((rooms[i].id, text)))
      && (added ==> found == Some((room.id, text)))
  {
    hide WellFormed;
    var op, q := AddOf(chatType, room), After(crypto, p, [AddOf(chatType, room)]);
    OneOperation(crypto, p, op);
    OperationsKeepWellFormed(crypto, p, [op]);
    OperationsKeepWellFormed(crypto, q, ops);
    var rooms := RoomsForChatType(After(crypto, q, ops), chatType);
    var i := FirstWithKey(rooms, room.symmetricKey);
    assert HasKey(RoomsForChatType(q, chatType), room.symmetricKey) by {
      AddedRoomIsThere(crypto, p, chatType, room);
    }
    FirstRoomWithTheKeyOpens(crypto, rooms, text, room.symmetricKey, i);
    if Apply(crypto, p, op).Some? {
      AddedRoomIsThere(crypto, p, chatType, room);
      var k := |RoomsForChatType(p, chatType)|;
      assert rooms[k] == room;
      KeysAreDistinct(After(crypto, q, ops), chatType, i, k);
    }
  }

  lemma OneOperation(crypto: Cryptography, p: Profile, op: Operation)
    ensures After(crypto, p, [op]) == match Apply(crypto, p, op) case None => p case Some(q) => q
  {
    hide Apply;
    assert [op][..0] == [] && After(crypto, p, []) == p;
  }

  lemma AddedRoomIsThere(crypto: Cryptography, p: Profile, chatType: string, room: Room)
    requires chatType == "PUBLIC" || chatType == "PRIVATE"
    ensures
      var q := After(crypto, p, [AddOf(chatType, room)]);
      && HasKey(RoomsForChatType(q, chatType), room.symmetricKey)
      && (Apply(crypto, p, AddOf(chatType, room)).Some? ==>
            RoomsForChatType(q, chatType) == RoomsForChatType(p, chatType) + [room])
  {
    OneOperation(crypto, p, AddOf(chatType, room));
    var n := |RoomsForChatType(p, chatType)|;
    if Apply(crypto, p, AddOf(chatType, room)).Some? {
      assert RoomsForChatType(After(crypto, p, [AddOf(chatType, room)]), chatType)[n] == room;
    }
  }

  lemma KeysAreDistinct(p: Profile, chatType: string, i: nat, j: nat)
    requires WellFormed(p) && (chatType == "PUBLIC" || chatType == "PRIVATE")
    requires i < |RoomsForChatType(p, chatType)| && j < |RoomsForChatType(p, chatType)|
    requires RoomsForChatType(p, chatType)[i].symmetricKey == RoomsForChatType(p, chatType)[j].symmetricKey
    ensures i == j
  {
  }

  // ----- the object -----

  lemma DerivedKeyApplies(crypto: Cryptography, p: Profile, position: nat, dhPublicKey: string)
    requires position < |p.directRooms|
    ensures var d := p.directRooms[position];
            Apply(crypto, p, DeriveKey(position, dhPublicKey))
            == Some(p.(directRooms := p.directRooms[position :=
                 d.(room := d.room.(symmetricKey := crypto.deriveShared(d.dhPrivateKey, dhPublicKey)))]))
  {
  }

  /** A direct room as the profile holds it: the key exchange writes its key through an alias. */
  class DirectRoom {
    const id: string
    const name: string
    const recipientPublicKey: string
    const dhPublicKey: string
    const dhPrivateKey: string
    var symmetricKey: string

    constructor (id: string, name: string, recipientPublicKey: string, dhPublicKey: string, dhPrivateKey: string)
      ensures Value() == Direct(Room(id, name, ""), recipientPublicKey, dhPublicKey, dhPrivateKey)
    {
      this.id, this.name, this.recipientPublicKey := id, name, recipientPublicKey;
      this.dhPublicKey, this.dhPrivateKey, symmetricKey := dhPublicKey, dhPrivateKey, "";
    }

    function Value(): Direct
      reads this
    {
      Direct(Room(id, name, symmetricKey), recipientPublicKey, dhPublicKey, dhPrivateKey)
    }
  }

  function Values(rooms: seq<DirectRoom>): (r: seq<Direct>)
    reads rooms
    ensures |r| == |rooms|
    ensures forall i | 0 <= i < |r| :: r[i] == rooms[i].Value()
  {
    if rooms == [] then [] else Values(rooms[..|rooms| - 1]) + [rooms[|rooms| - 1].Value()]
  }

  class ProfileManager {
    const crypto: Cryptography
    var contacts: map<string, Contact>
    var publicRooms: seq<Room>
    var privateRooms: seq<Room>
    var directRooms: seq<DirectRoom>
    var stored: Profile

    /** The profile in memory, as a value. */
    function InMemory(): Profile
      reads this, directRooms
    {
      Profile(contacts, publicRooms, privateRooms, Values(directRooms))
    }

    ghost predicate Valid()
      reads this, directRooms
    {
      WellFormed(InMemory()) && stored == InMemory()
    }

    constructor (crypto: Cryptography, defaultRoom: Room)
      ensures Valid() && this.crypto == crypto
      ensures InMemory() == Profile(map[], [defaultRoom], [], [])
      ensures directRooms == []
    {
      this.crypto := crypto;
      contacts, publicRooms, privateRooms, directRooms := map[], [defaultRoom], [], [];
      stored := Profile(map[], [defaultRoom], [], []);
    }

    method PersistProfile()
      modifies this`stored
      ensures stored == InMemory()
    {
      stored := InMemory();
    }

    method InsertTrustedContact(name: string, publicKey: string) returns (ok: bool)
      requires Valid()
      modifies this`contacts, this`stored
      ensures Valid()
      ensures if ok then Apply(crypto, old(InMemory()), InsertContact(name, publicKey)) == Some(InMemory())
              else Apply(crypto, old(InMemory()), InsertContact(name, publicKey)) == None
                   && InMemory() == old(InMemory())
    {
      hide WellFormed, Values;
      if name in contacts { return false; }
      if KeyTaken(contacts, publicKey, {}) { return false; }
      contacts := contacts[name := Contact(name, publicKey)];
      ApplyKeepsWellFormed(crypto, old(InMemory()), InsertContact(name, publicKey));
      PersistProfile();
      return true;
    }

    method UpdateTrustedContact(oldName: string, newName: string, publicKey: string) returns (ok: bool)
      requires Valid()
      modifies this`contacts, this`stored
      ensures Valid()
      ensures var op := UpdateContact(oldName, newName, publicKey);
              if ok then Apply(crypto, old(InMemory()), op) == Some(InMemory())
              else Apply(crypto, old(InMemory()), op) == None && InMemory() == old(InMemory())
    {
      hide WellFormed, Values;
      if oldName !in contacts { return false; }
      if newName in contacts { return false; }
      if KeyTaken(contacts, publicKey, {oldName}) { return false; }
      contacts := contacts - {oldName};
      contacts := contacts[newName := Contact(newName, publicKey)];
      ApplyKeepsWellFormed(crypto, old(InMemory()), UpdateContact(oldName, newName, publicKey));
      PersistProfile();
      return true;
    }

    method DeleteTrustedContact(name: string) returns (ok: bool)
      requires Valid()
      modifies this`contacts, this`stored
      ensures Valid()
      ensures if ok then Apply(crypto, old(InMemory()), DeleteContact(name)) == Some(InMemory())
              else Apply(crypto, old(InMemory()), DeleteContact(name)) == None && InMemory() == old(InMemory())
    {
      hide WellFormed, Values;
      if name !in contacts { return false; }
      contacts := contacts - {name};
      ApplyKeepsWellFormed(crypto, old(InMemory()), DeleteContact(name));
      PersistProfile();
      return true;
    }

    method AddPublicRoom(room: Room) returns (ok: bool)
      requires Valid()
      modifies this`publicRooms, this`stored
      ensures Valid()
      ensures if ok then Apply(crypto, old(InMemory()), AddPublic(room)) == Some(InMemory())
              else Apply(crypto, old(InMemory()), AddPublic(room)) == None && InMemory() == old(InMemory())
    {
      hide WellFormed, Values;
      if HasKey(publicRooms, room.symmetricKey) { return false; }
      publicRooms := publicRooms + [room];
      ApplyKeepsWellFormed(crypto, old(InMemory()), AddPublic(room));
      PersistProfile();
      return true;
    }

    method AddPrivateRoom(room: Room) returns (ok: bool)
      requires Valid()
      modifies this`privateRooms, this`stored
      ensures Valid()
      ensures if ok then Apply(crypto, old(InMemory()), AddPrivate(room)) == Some(InMemory())
              else Apply(crypto, old(InMemory()), AddPrivate(room)) == None && InMemory() == old(InMemory())
    {
      hide WellFormed, Values;
      if HasKey(privateRooms, room.symmetricKey) { return false; }
      privateRooms := privateRooms + [room];
      ApplyKeepsWellFormed(crypto, old(InMemory()), AddPrivate(room));
      PersistProfile();
      return true;
    }

    method AddDirectRoom(room: DirectRoom) returns (ok: bool)
      requires Valid()
      modifies this`directRooms, this`stored
      ensures Valid()
      ensures if ok then directRooms == old(directRooms) + [room]
                         && Apply(crypto, old(InMemory()), AddDirect(room.Value())) == Some(InMemory())
              else Apply(crypto, old(InMemory()), AddDirect(room.Value())) == None
                   && directRooms == old(directRooms) && InMemory() == old(InMemory())
    {
      hide WellFormed;
      if HasRecipient(Values(directRooms), room.recipientPublicKey) { return false; }
      directRooms := directRooms + [room];
      assert directRooms[..|directRooms| - 1] == old(directRooms);
      ApplyKeepsWellFormed(crypto, old(InMemory()), AddDirect(room.Value()));
      PersistProfile();
      return true;
    }

    /** The rooms without a key: the objects themselves, not copies. */
    method GetAllRoomsAvailableForKeyExchange() returns (rooms: seq<DirectRoom>)
      requires Valid()
      ensures forall room :: room in rooms <==> room in directRooms && room.symmetricKey == ""
      ensures forall i, j | 0 <= i < j < |rooms| :: rooms[i].recipientPublicKey != rooms[j].recipientPublicKey
    {
      rooms := [];
      for i := 0 to |directRooms|
        invariant forall room :: room in rooms <==> room in directRooms[..i] && room.symmetricKey == ""
        invariant forall j, k | 0 <= j < k < |rooms| :: rooms[j].recipientPublicKey != rooms[k].recipientPublicKey
      {
        if directRooms[i].symmetricKey == "" {
          forall j | 0 <= j < |rooms| ensures rooms[j].recipientPublicKey != directRooms[i].recipientPublicKey {
            assert rooms[j] in directRooms[..i];
            var k :| 0 <= k < i && directRooms[k] == rooms[j];
            assert InMemory().directRooms[k].recipientPublicKey != InMemory().directRooms[i].recipientPublicKey;
          }
          rooms := rooms + [directRooms[i]];
        }
      }
    }

    /**
     Writes the key derived for a room, reached through an alias. In the profile it changes
     that room and no other, and nothing if the room is none of the profile's.
     */
    method DeriveRoomSecretKey(room: DirectRoom, dhPublicKey: string)
      requires Valid()
      modifies room`symmetricKey, this`stored
      ensures Valid() && room.symmetricKey == crypto.deriveShared(room.dhPrivateKey, dhPublicKey)
      ensures forall i | 0 <= i < |directRooms| && directRooms[i] == room ::
                Apply(crypto, old(InMemory()), DeriveKey(i, dhPublicKey)) == Some(InMemory())
      ensures room !in directRooms ==> InMemory() == old(InMemory())
    {
      hide WellFormed, Apply, Derived, Values;
      ghost var before := InMemory();
      if room in directRooms {
        ghost var position :| 0 <= position < |directRooms| && directRooms[position] == room;
        forall i | 0 <= i < |directRooms| && i != position ensures directRooms[i] != room {
          RecipientsDiffer(before, i, position);
          assert before.directRooms[i].recipientPublicKey != before.directRooms[position].recipientPublicKey;
        }
        DerivedKeyApplies(crypto, before, position, dhPublicKey);
        room.symmetricKey := crypto.deriveShared(room.dhPrivateKey, dhPublicKey);
        assert Values(directRooms) == before.directRooms[position := room.Value()];
        ApplyKeepsWellFormed(crypto, before, DeriveKey(position, dhPublicKey));
      } else {
        room.symmetricKey := crypto.deriveShared(room.dhPrivateKey, dhPublicKey);
        assert Values(directRooms) == before.directRooms;
      }
      PersistProfile();
    }

    method GetUserRoomsForChatType(chatType: string) returns (rooms: seq<Room>)
      ensures rooms == RoomsForChatType(InMemory(), chatType)
    {
      if chatType == PUBLIC {
        return publicRooms;
      } else if chatType == PRIVATE {
        return privateRooms;
      } else if chatType == DIRECT {
        return RoomsOf(Values(directRooms));
      } else {
        return [];
      }
    }
  }
}
