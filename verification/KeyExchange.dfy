/**
 The key exchange of direct rooms, as steps of many clients and one bundle store that
 interleave in any order. Creating a room, posting its bundle, each part of an exchange run,
 and each derivation that a run started without waiting for it, are steps of their own.
 */
module KeyExchange {
  import opened Prelude
  import opened Profiles

  datatype Content = Content(dhPublicKey: string, senderPublicKey: string)

  /** A stored bundle. Its content is encrypted, so only the receiver reads it. */
  datatype Bundle = Bundle(content: Content, contentHash: string, receiver: string)

  datatype DhRoom = DhRoom(dhPrivateKey: string, symmetricKey: string)

  /** A derivation that a run started and nobody waits for. */
  datatype Derivation = Derivation(recipient: string, dhPublicKey: string)

  /** A run: the rooms that had no key when it began, the bundles left to handle, the hashes to delete. */
  datatype ExchangeRun = ExchangeRun(keyless: set<string>, bundles: seq<Bundle>, marked: seq<string>)

  /** A client, with its direct rooms by recipient. */
  datatype Client = Client(
    rooms: map<string, DhRoom>,
    posting: seq<Bundle>,
    deriving: seq<Derivation>,
    runs: seq<ExchangeRun>)

  /** All clients by public key, the stored bundles, and every bundle ever accepted. */
  datatype System = System(clients: map<string, Client>, bundles: seq<Bundle>, accepted: set<Bundle>)

  datatype Action =
    | CreateRoom(user: string, recipient: string, dhPrivateKey: string)
    | Post(user: string, k: nat, accepted: bool)
    | StartRun(user: string)
    | Fetch(user: string, k: nat)
    | Handle(user: string, k: nat)
    | Delete(user: string, k: nat)
    | EndRun(user: string, k: nat)
    | FinishDerivation(user: string, k: nat)
    /** The derivation throws; the run that started it does not notice. */
    | FailDerivation(user: string, k: nat)
    /** The client stops, and starts again from its stored profile. */
    | Restart(user: string)

  function Without<T>(s: seq<T>, k: nat): seq<T>
    requires k < |s|
  {
    s[..k] + s[k + 1..]
  }

  function HashOf(crypto: Cryptography, content: Content): string {
    crypto.contentHash(content.dhPublicKey, content.senderPublicKey)
  }

  function BundleOf(crypto: Cryptography, user: string, recipient: string, dhPublicKey: string): Bundle {
    var content := Content(dhPublicKey, user);
    Bundle(content, HashOf(crypto, content), recipient)
  }

  function BundleFor(crypto: Cryptography, user: string, recipient: string, dhPrivateKey: string): Bundle {
    BundleOf(crypto, user, recipient, crypto.publicOf(dhPrivateKey))
  }

  /** Stored hashes are unique. */
  predicate HashStored(bundles: seq<Bundle>, hash: string) {
    exists i | 0 <= i < |bundles| :: bundles[i].contentHash == hash
  }

  function ForReceiver(bundles: seq<Bundle>, receiver: string): seq<Bundle> {
    if bundles == [] then []
    else
      var last := bundles[|bundles| - 1];
      ForReceiver(bundles[..|bundles| - 1], receiver) + (if last.receiver == receiver then [last] else [])
  }

  function Deleted(bundles: seq<Bundle>, hash: string, receiver: string): seq<Bundle> {
    if bundles == [] then []
    else
      var last := bundles[|bundles| - 1];
      Deleted(bundles[..|bundles| - 1], hash, receiver)
      + (if last.contentHash == hash && last.receiver == receiver then [] else [last])
  }

  /** The next bundle of a run: if its sender's room was keyless, a derivation starts and the bundle is marked. */
  function HandleNext(crypto: Cryptography, c: Client, k: nat): Client
    requires k < |c.runs| && c.runs[k].bundles != []
  {
    var run := c.runs[k];
    var content := run.bundles[0].content;
    if content.senderPublicKey in run.keyless then
      c.(deriving := c.deriving + [Derivation(content.senderPublicKey, content.dhPublicKey)],
         runs := c.runs[k := run.(bundles := run.bundles[1..], marked := run.marked + [HashOf(crypto, content)])])
    else
      c.(runs := c.runs[k := run.(bundles := run.bundles[1..])])
  }

  function Keyless(rooms: map<string, DhRoom>): set<string> {
    set r | r in rooms && rooms[r].symmetricKey == ""
  }

  /** One step. An action that is not possible changes nothing. */
  function Do(crypto: Cryptography, s: System, a: Action): System {
    if a.user !in s.clients then s
    else
      var c := s.clients[a.user];
      match a
      case CreateRoom(user, recipient, dhPrivateKey) =>
        if recipient in c.rooms then s
        else s.(clients := s.clients[user :=
          c.(rooms := c.rooms[recipient := DhRoom(dhPrivateKey, "")],
             posting := c.posting + [BundleFor(crypto, user, recipient, dhPrivateKey)])])
      case Post(user, k, accepted) =>
        if k >= |c.posting| then s
        else
          var posted := s.(clients := s.clients[user := c.(posting := Without(c.posting, k))]);
          if accepted && !HashStored(s.bundles, c.posting[k].contentHash)
          then posted.(bundles := s.bundles + [c.posting[k]], accepted := s.accepted + {c.posting[k]})
          else posted
      case StartRun(user) =>
        s.(clients := s.clients[user := c.(runs := c.runs + [ExchangeRun(Keyless(c.rooms), [], [])])])
      case Fetch(user, k) =>
        if k >= |c.runs| then s
        else
          var fetched := c.runs[k].(bundles := ForReceiver(s.bundles, user));
          s.(clients := s.clients[user := c.(runs := c.runs[k := fetched])])
      case Handle(user, k) =>
        if k >= |c.runs| || c.runs[k].bundles == [] then s
        else s.(clients := s.clients[user := HandleNext(crypto, c, k)])
      case Delete(user, k) =>
        if k >= |c.runs| || c.runs[k].bundles != [] || c.runs[k].marked == [] then s
        else
          var marked := c.runs[k].marked;
          s.(clients := s.clients[user := c.(runs := c.runs[k := c.runs[k].(marked := marked[1..])])],
             bundles := Deleted(s.bundles, marked[0], user))
      case EndRun(user, k) =>
        if k >= |c.runs| then s
        else s.(clients := s.clients[user := c.(runs := Without(c.runs, k))])
      case FinishDerivation(user, k) =>
        if k >= |c.deriving| || c.deriving[k].recipient !in c.rooms then s
        else
          var d := c.deriving[k];
          var room := c.rooms[d.recipient];
          var key := crypto.deriveShared(room.dhPrivateKey, d.dhPublicKey);
          s.(clients := s.clients[user := c.(
            rooms := c.rooms[d.recipient := room.(symmetricKey := key)],
            deriving := Without(c.deriving, k))])
      case FailDerivation(user, k) =>
        if k >= |c.deriving| then s
        else s.(clients := s.clients[user := c.(deriving := Without(c.deriving, k))])
      case Restart(user) =>
        s.(clients := s.clients[user := c.(posting := [], deriving := [], runs := [])])
  }

  function DoAll(crypto: Cryptography, s: System, actions: seq<Action>): System {
    if actions == [] then s
    else Do(crypto, DoAll(crypto, s, actions[..|actions| - 1]), actions[|actions| - 1])
  }

  /** Users without rooms, and nothing stored. */
  ghost predicate Initial(s: System) {
    s.bundles == [] && s.accepted == {} && forall u | u in s.clients :: s.clients[u] == Client(map[], [], [], [])
  }

  // ----- what every interleaving keeps -----

  /** The public key of the owner's room for a recipient. */
  function PublicKeyFor(crypto: Cryptography, s: System, owner: string, recipient: string): Option<string> {
    if owner in s.clients && recipient in s.clients[owner].rooms
    then Some(crypto.publicOf(s.clients[owner].rooms[recipient].dhPrivateKey))
    else None
  }

  /** A bundle that carries the public key of its sender's room for its receiver. */
  ghost predicate Genuine(crypto: Cryptography, s: System, b: Bundle) {
    && b.contentHash == HashOf(crypto, b.content)
    && PublicKeyFor(crypto, s, b.content.senderPublicKey, b.receiver) == Some(b.content.dhPublicKey)
  }

  ghost predicate RunOk(crypto: Cryptography, s: System, u: string, c: Client, run: ExchangeRun) {
    && run.keyless <= c.rooms.Keys
    && forall b | b in run.bundles :: Genuine(crypto, s, b) && b.receiver == u
  }

  /** A key is the secret shared with the peer's room for this user. */
  ghost predicate KeyOk(crypto: Cryptography, s: System, u: string, r: string, room: DhRoom) {
    room.symmetricKey != "" ==>
      && PublicKeyFor(crypto, s, r, u).Some?
      && room.symmetricKey == crypto.deriveShared(room.dhPrivateKey, PublicKeyFor(crypto, s, r, u).value)
  }

  ghost predicate DerivationOk(crypto: Cryptography, s: System, u: string, c: Client, d: Derivation) {
    d.recipient in c.rooms && PublicKeyFor(crypto, s, d.recipient, u) == Some(d.dhPublicKey)
  }

  ghost predicate ClientOk(crypto: Cryptography, s: System, u: string, c: Client) {
    && (forall r | r in c.rooms :: KeyOk(crypto, s, u, r, c.rooms[r]))
    && (forall b | b in c.posting :: Genuine(crypto, s, b))
    && (forall d | d in c.deriving :: DerivationOk(crypto, s, u, c, d))
    && (forall run | run in c.runs :: RunOk(crypto, s, u, c, run))
  }

  /** Every key, bundle, derivation and run belongs to the rooms it should. Failures keep this, too. */
  ghost predicate Sound(crypto: Cryptography, s: System) {
    && (forall u | u in s.clients :: ClientOk(crypto, s, u, s.clients[u]))
    && (forall b | b in s.bundles :: b in s.accepted)
    && (forall b | b in s.accepted :: Genuine(crypto, s, b))
  }

  /** The room for v has its key, or is about to get it. */
  ghost predicate Started(c: Client, v: string) {
    && v in c.rooms
    && (c.rooms[v].symmetricKey != "" || exists d :: d in c.deriving && d.recipient == v)
  }

  /** Whatever a run is going to delete has been started. */
  ghost predicate MarksStarted(crypto: Cryptography, c: Client, run: ExchangeRun) {
    forall h, content | h in run.marked && HashOf(crypto, content) == h :: Started(c, content.senderPublicKey)
  }

  /** An accepted bundle is not lost: it is stored still, or its receiver has, or is deriving, the key. */
  ghost predicate NotLost(s: System, b: Bundle) {
    b in s.bundles || (b.receiver in s.clients && Started(s.clients[b.receiver], b.content.senderPublicKey))
  }

  ghost predicate NothingLost(crypto: Cryptography, s: System) {
    && (forall u, run | u in s.clients && run in s.clients[u].runs :: MarksStarted(crypto, s.clients[u], run))
    && (forall b | b in s.accepted :: NotLost(s, b))
  }

  // ----- preservation -----

  /** A client's rooms keep their key pairs and never become keyless. */
  ghost predicate Grows(c: Client, d: Client) {
    forall r | r in c.rooms ::
      && r in d.rooms && d.rooms[r].dhPrivateKey == c.rooms[r].dhPrivateKey
      && (c.rooms[r].symmetricKey != "" ==> d.rooms[r].symmetricKey != "")
  }

  ghost predicate Later(s: System, t: System) {
    s.accepted <= t.accepted && forall u | u in s.clients :: u in t.clients && Grows(s.clients[u], t.clients[u])
  }

  /** What a client has started stays started. */
  ghost predicate Continues(c: Client, d: Client) {
    forall v | Started(c, v) :: Started(d, v)
  }

  lemma GenuineStays(crypto: Cryptography, s: System, t: System, b: Bundle)
    requires Later(s, t) && Genuine(crypto, s, b)
    ensures Genuine(crypto, t, b)
  {
  }

  lemma RunStaysOk(crypto: Cryptography, s: System, t: System, u: string, run: ExchangeRun)
    requires Later(s, t) && u in s.clients && RunOk(crypto, s, u, s.clients[u], run)
    ensures RunOk(crypto, t, u, t.clients[u], run)
  {
    forall b | b in run.bundles ensures Genuine(crypto, t, b) { GenuineStays(crypto, s, t, b); }
  }

  /** Whatever changed from c to d is in order. */
  ghost predicate ChangesOk(crypto: Cryptography, t: System, u: string, c: Client, d: Client) {
    && (forall r | r in d.rooms :: (r in c.rooms && d.rooms[r] == c.rooms[r]) || KeyOk(crypto, t, u, r, d.rooms[r]))
    && (forall b | b in d.posting :: b in c.posting || Genuine(crypto, t, b))
    && (forall x | x in d.deriving :: x in c.deriving || DerivationOk(crypto, t, u, d, x))
    && (forall run | run in d.runs :: run in c.runs || RunOk(crypto, t, u, d, run))
  }

  lemma ClientStaysOk(crypto: Cryptography, s: System, t: System, u: string)
    requires Later(s, t) && u in s.clients && ClientOk(crypto, s, u, s.clients[u])
    requires ChangesOk(crypto, t, u, s.clients[u], t.clients[u])
    ensures ClientOk(crypto, t, u, t.clients[u])
  {
    hide RunOk;
    var c, d := s.clients[u], t.clients[u];
    forall b | b in d.posting ensures Genuine(crypto, t, b) {
      if b in c.posting { GenuineStays(crypto, s, t, b); }
    }
    forall run | run in d.runs ensures RunOk(crypto, t, u, d, run) {
      if run in c.runs { RunStaysOk(crypto, s, t, u, run); }
    }
  }

  lemma LaterByOne(s: System, t: System, user: string)
    requires user in s.clients && user in t.clients && t.clients == s.clients[user := t.clients[user]]
    requires Grows(s.clients[user], t.clients[user]) && s.accepted <= t.accepted
    ensures Later(s, t)
  {
  }

  lemma NoChangeIsOk(crypto: Cryptography, t: System, u: string, c: Client)
    ensures ChangesOk(crypto, t, u, c, c)
  {
  }

  /** Soundness comes down to the client that acts, and to the bundles that are new. */
  lemma SoundStays(crypto: Cryptography, s: System, t: System, user: string)
    requires Sound(crypto, s) && Later(s, t) && user in s.clients
    requires user in t.clients && t.clients == s.clients[user := t.clients[user]]
    requires ChangesOk(crypto, t, user, s.clients[user], t.clients[user])
    requires forall b | b in t.bundles :: b in t.accepted
    requires forall b | b in t.accepted && b !in s.accepted :: Genuine(crypto, t, b)
    ensures Sound(crypto, t)
  {
    hide RunOk, ClientOk, Genuine, ChangesOk, Later;
    forall u | u in t.clients ensures ClientOk(crypto, t, u, t.clients[u]) {
      if u != user { NoChangeIsOk(crypto, t, u, s.clients[u]); }
      ClientStaysOk(crypto, s, t, u);
    }
    forall b | b in t.accepted ensures Genuine(crypto, t, b) {
      if b in s.accepted { GenuineStays(crypto, s, t, b); }
    }
  }

  /** A step that changes one client only. */
  lemma ClientStep(crypto: Cryptography, s: System, t: System, user: string, d: Client)
    requires Sound(crypto, s) && user in s.clients && t == s.(clients := s.clients[user := d])
    requires Grows(s.clients[user], d) && ChangesOk(crypto, t, user, s.clients[user], d)
    ensures Later(s, t) && Sound(crypto, t)
  {
    hide Grows, ChangesOk, ClientOk, Genuine;
    LaterByOne(s, t, user);
    SoundStays(crypto, s, t, user);
  }

  lemma ClientIsOk(crypto: Cryptography, s: System, u: string)
    requires Sound(crypto, s) && u in s.clients
    ensures ClientOk(crypto, s, u, s.clients[u])
  {
  }

  lemma SameRooms(c: Client, d: Client)
    requires d.rooms == c.rooms
    ensures Grows(c, d)
  {
  }

  lemma WithoutMembers<T>(s: seq<T>, k: nat)
    requires k < |s|
    ensures forall x | x in Without(s, k) :: x in s
    ensures forall x | x in s && x != s[k] :: x in Without(s, k)
  {
    assert s == s[..k] + [s[k]] + s[k + 1..];
  }

  lemma CreateRoomIsSound(crypto: Cryptography, s: System, a: Action)
    requires Sound(crypto, s) && a.CreateRoom? && a.user in s.clients && a.recipient !in s.clients[a.user].rooms
    ensures Later(s, Do(crypto, s, a)) && Sound(crypto, Do(crypto, s, a))
  {
    hide RunOk, Sound, ClientOk;
    var t := Do(crypto, s, a);
    assert Genuine(crypto, t, BundleFor(crypto, a.user, a.recipient, a.dhPrivateKey));
    ClientStep(crypto, s, t, a.user, t.clients[a.user]);
  }

  lemma PostIsSound(crypto: Cryptography, s: System, a: Action)
    requires Sound(crypto, s) && a.Post? && a.user in s.clients && a.k < |s.clients[a.user].posting|
    ensures Later(s, Do(crypto, s, a)) && Sound(crypto, Do(crypto, s, a))
  {
    hide RunOk, Genuine;
    var t := Do(crypto, s, a);
    var c, d := s.clients[a.user], t.clients[a.user];
    ClientIsOk(crypto, s, a.user);
    WithoutMembers(c.posting, a.k);
    SameRooms(c, d);
    LaterByOne(s, t, a.user);
    GenuineStays(crypto, s, t, c.posting[a.k]);
    SoundStays(crypto, s, t, a.user);
  }

  lemma FetchIsSound(crypto: Cryptography, s: System, a: Action)
    requires Sound(crypto, s) && a.Fetch? && a.user in s.clients && a.k < |s.clients[a.user].runs|
    ensures Later(s, Do(crypto, s, a)) && Sound(crypto, Do(crypto, s, a))
  {
    hide Genuine;
    var t := Do(crypto, s, a);
    var c, d := s.clients[a.user], t.clients[a.user];
    ReceiversAreMembers(s.bundles, a.user);
    ClientIsOk(crypto, s, a.user);
    assert RunOk(crypto, s, a.user, c, c.runs[a.k]);
    assert RunOk(crypto, s, a.user, c, d.runs[a.k]);
    SameRooms(c, d);
    LaterByOne(s, t, a.user);
    RunStaysOk(crypto, s, t, a.user, d.runs[a.k]);
    ClientStep(crypto, s, t, a.user, d);
  }

  /** Steps that begin or drop something. */
  lemma ListStepIsSound(crypto: Cryptography, s: System, a: Action)
    requires Sound(crypto, s) && a.user in s.clients
    requires match a
             case StartRun(_) => true
             case Restart(_) => true
             case EndRun(_, k) => k < |s.clients[a.user].runs|
             case FailDerivation(_, k) => k < |s.clients[a.user].deriving|
             case _ => false
    ensures Later(s, Do(crypto, s, a)) && Sound(crypto, Do(crypto, s, a))
  {
    hide Sound, Genuine;
    var t := Do(crypto, s, a);
    var c, d := s.clients[a.user], t.clients[a.user];
    if a.EndRun? { WithoutMembers(c.runs, a.k); }
    if a.FailDerivation? { WithoutMembers(c.deriving, a.k); }
    SameRooms(c, d);
    ClientStep(crypto, s, t, a.user, d);
  }

  lemma HandleIsSound(crypto: Cryptography, s: System, a: Action)
    requires Sound(crypto, s) && a.Handle? && a.user in s.clients
    requires a.k < |s.clients[a.user].runs| && s.clients[a.user].runs[a.k].bundles != []
    ensures Later(s, Do(crypto, s, a)) && Sound(crypto, Do(crypto, s, a))
  {
    hide Sound, Grows;
    var t := Do(crypto, s, a);
    var c, d := s.clients[a.user], t.clients[a.user];
    ClientIsOk(crypto, s, a.user);
    var run, next := c.runs[a.k], d.runs[a.k];
    assert RunOk(crypto, s, a.user, c, run);
    assert Genuine(crypto, s, run.bundles[0]);
    SameRooms(c, d);
    LaterByOne(s, t, a.user);
    RunStaysOk(crypto, s, t, a.user, run);
    assert RunOk(crypto, t, a.user, d, next);
    GenuineStays(crypto, s, t, run.bundles[0]);
    HandleChangesOk(crypto, t, a.user, c, a.k);
    ClientStep(crypto, s, t, a.user, d);
  }

  lemma HandleChangesOk(crypto: Cryptography, t: System, u: string, c: Client, k: nat)
    requires k < |c.runs| && c.runs[k].bundles != [] && c.runs[k].keyless <= c.rooms.Keys
    requires var d := HandleNext(crypto, c, k);
             RunOk(crypto, t, u, d, d.runs[k])
    requires Genuine(crypto, t, c.runs[k].bundles[0]) && c.runs[k].bundles[0].receiver == u
    ensures ChangesOk(crypto, t, u, c, HandleNext(crypto, c, k))
  {
    hide RunOk;
  }

  lemma {:induction false} DeletedMembers(bundles: seq<Bundle>, hash: string, receiver: string)
    ensures forall b :: b in Deleted(bundles, hash, receiver) <==>
              b in bundles && !(b.contentHash == hash && b.receiver == receiver)
    decreases |bundles|
  {
    if bundles != [] {
      DeletedMembers(bundles[..|bundles| - 1], hash, receiver);
      assert bundles == bundles[..|bundles| - 1] + [bundles[|bundles| - 1]];
    }
  }

  lemma DeleteIsSound(crypto: Cryptography, s: System, a: Action)
    requires Sound(crypto, s) && a.Delete? && a.user in s.clients && a.k < |s.clients[a.user].runs|
    requires s.clients[a.user].runs[a.k].bundles == [] && s.clients[a.user].runs[a.k].marked != []
    ensures Later(s, Do(crypto, s, a)) && Sound(crypto, Do(crypto, s, a))
  {
    var t := Do(crypto, s, a);
    var c, d := s.clients[a.user], t.clients[a.user];
    ClientIsOk(crypto, s, a.user);
    var run, next := c.runs[a.k], d.runs[a.k];
    assert RunOk(crypto, s, a.user, c, run);
    SameRooms(c, d);
    LaterByOne(s, t, a.user);
    assert RunOk(crypto, s, a.user, c, next);
    RunStaysOk(crypto, s, t, a.user, next);
    DeletedMembers(s.bundles, run.marked[0], a.user);
    SoundStays(crypto, s, t, a.user);
  }

  lemma FinishDerivationIsSound(crypto: Cryptography, s: System, a: Action)
    requires crypto.DiffieHellman()
    requires Sound(crypto, s) && a.FinishDerivation? && a.user in s.clients && a.k < |s.clients[a.user].deriving|
    ensures s.clients[a.user].deriving[a.k].recipient in s.clients[a.user].rooms
    ensures Later(s, Do(crypto, s, a)) && Sound(crypto, Do(crypto, s, a))
  {
    hide Sound, RunOk;
    ClientIsOk(crypto, s, a.user);
    var t := Do(crypto, s, a);
    var c, d := s.clients[a.user], t.clients[a.user];
    var x := c.deriving[a.k];
    assert DerivationOk(crypto, s, a.user, c, x);
    WithoutMembers(c.deriving, a.k);
    LaterByOne(s, t, a.user);
    assert KeyOk(crypto, t, a.user, x.recipient, d.rooms[x.recipient]);
    ClientStep(crypto, s, t, a.user, d);
  }

  lemma {:induction false} ReceiversAreMembers(bundles: seq<Bundle>, receiver: string)
    ensures forall b :: b in ForReceiver(bundles, receiver) <==> b in bundles && b.receiver == receiver
    decreases |bundles|
  {
    if bundles != [] {
      ReceiversAreMembers(bundles[..|bundles| - 1], receiver);
      assert bundles == bundles[..|bundles| - 1] + [bundles[|bundles| - 1]];
    }
  }

  lemma LaterIsReflexive(s: System)
    ensures Later(s, s)
  {
  }

  /**
     Every step, also one at which a client stops or a derivation fails, keeps soundness, every
     key pair and every key.
     */
  lemma StepKeepsSound(crypto: Cryptography, s: System, a: Action)
    requires crypto.DiffieHellman() && Sound(crypto, s)
    ensures Sound(crypto, Do(crypto, s, a)) && Later(s, Do(crypto, s, a))
  {
    hide Sound, Later, crypto.DiffieHellman;
    if Do(crypto, s, a) == s {
      LaterIsReflexive(s);
    } else {
      match a
      case CreateRoom(_, _, _) => CreateRoomIsSound(crypto, s, a);
      case Post(_, _, _) => PostIsSound(crypto, s, a);
      case Fetch(_, _) => FetchIsSound(crypto, s, a);
      case Handle(_, _) => HandleIsSound(crypto, s, a);
      case Delete(_, _) => DeleteIsSound(crypto, s, a);
      case FinishDerivation(_, _) => FinishDerivationIsSound(crypto, s, a);
      case _ => ListStepIsSound(crypto, s, a);
    }
  }

  lemma {:induction false} RunKeepsSound(crypto: Cryptography, s: System, actions: seq<Action>)
    requires crypto.DiffieHellman() && Sound(crypto, s)
    ensures Sound(crypto, DoAll(crypto, s, actions)) && Later(s, DoAll(crypto, s, actions))
    decreases |actions|
  {
    hide Sound, Later, crypto.DiffieHellman, Do;
    if actions == [] {
      LaterIsReflexive(s);
    } else {
      var before := DoAll(crypto, s, actions[..|actions| - 1]);
      RunKeepsSound(crypto, s, actions[..|actions| - 1]);
      StepKeepsSound(crypto, before, actions[|actions| - 1]);
      LaterIsTransitive(s, before, DoAll(crypto, s, actions));
    }
  }

  lemma GrowsIsTransitive(c: Client, d: Client, e: Client)
    requires Grows(c, d) && Grows(d, e)
    ensures Grows(c, e)
  {
  }

  lemma LaterIsTransitive(s: System, t: System, r: System)
    requires Later(s, t) && Later(t, r)
    ensures Later(s, r)
  {
    hide Grows;
    forall u | u in s.clients ensures u in r.clients && Grows(s.clients[u], r.clients[u]) {
      GrowsIsTransitive(s.clients[u], t.clients[u], r.clients[u]);
    }
  }

  lemma InitiallySound(crypto: Cryptography, s: System)
    requires Initial(s)
    ensures Sound(crypto, s) && NothingLost(crypto, s)
  {
  }

  // ----- steps without a failure -----

  /** A client stops and starts again from its profile, or a derivation throws. */
  predicate IsFailure(a: Action) {
    a.Restart? || a.FailDerivation?
  }

  lemma SameDerivationsContinue(c: Client, d: Client)
    requires d.rooms == c.rooms && (forall x | x in c.deriving :: x in d.deriving)
    ensures Continues(c, d)
  {
  }

  /** Handling a bundle of a keyless room starts its derivation. */
  lemma HandleNextContinues(crypto: Cryptography, c: Client, k: nat)
    requires k < |c.runs| && c.runs[k].bundles != [] && c.runs[k].keyless <= c.rooms.Keys
    ensures Continues(c, HandleNext(crypto, c, k))
    ensures var v := c.runs[k].bundles[0].content.senderPublicKey;
            v in c.runs[k].keyless ==> Started(HandleNext(crypto, c, k), v)
  {
    var d := HandleNext(crypto, c, k);
    assert forall x | x in c.deriving :: x in d.deriving;
    if c.runs[k].bundles[0].content.senderPublicKey in c.runs[k].keyless {
      assert d.deriving[|c.deriving|].recipient == c.runs[k].bundles[0].content.senderPublicKey;
    }
  }

  lemma FinishContinues(crypto: Cryptography, s: System, a: Action)
    requires crypto.DiffieHellman()
    requires a.FinishDerivation? && a.user in s.clients && a.k < |s.clients[a.user].deriving|
    requires s.clients[a.user].deriving[a.k].recipient in s.clients[a.user].rooms
    ensures a.user in Do(crypto, s, a).clients && Continues(s.clients[a.user], Do(crypto, s, a).clients[a.user])
  {
    var c, d := s.clients[a.user], Do(crypto, s, a).clients[a.user];
    var x := c.deriving[a.k];
    WithoutMembers(c.deriving, a.k);
    forall v | Started(c, v) ensures Started(d, v) {
      if v != x.recipient && c.rooms[v].symmetricKey == "" {
        var y :| y in c.deriving && y.recipient == v;
        assert y in d.deriving;
      }
    }
  }

  lemma ActorContinues(crypto: Cryptography, s: System, a: Action)
    requires crypto.DiffieHellman() && Sound(crypto, s) && a.user in s.clients && !IsFailure(a)
    ensures var t := Do(crypto, s, a);
            && a.user in t.clients && t.clients == s.clients[a.user := t.clients[a.user]]
            && Continues(s.clients[a.user], t.clients[a.user])
  {
    hide Started, Continues, Sound, crypto.DiffieHellman, Genuine;
    var c, d := s.clients[a.user], Do(crypto, s, a).clients[a.user];
    ClientIsOk(crypto, s, a.user);
    if a.FinishDerivation? && a.k < |c.deriving| && c.deriving[a.k].recipient in c.rooms {
      FinishContinues(crypto, s, a);
    } else if a.Handle? && a.k < |c.runs| && c.runs[a.k].bundles != [] {
      assert RunOk(crypto, s, a.user, c, c.runs[a.k]);
      HandleNextContinues(crypto, c, a.k);
    } else if a.CreateRoom? {
      NewRoomContinues(c, d);
    } else {
      SameDerivationsContinue(c, d);
    }
  }

  lemma NewRoomContinues(c: Client, d: Client)
    requires d.deriving == c.deriving && forall r | r in c.rooms :: r in d.rooms && d.rooms[r] == c.rooms[r]
    ensures Continues(c, d)
  {
  }

  lemma MarksStayStarted(crypto: Cryptography, c: Client, d: Client, run: ExchangeRun)
    requires Continues(c, d) && MarksStarted(crypto, c, run)
    ensures MarksStarted(crypto, d, run)
  {
    hide Started;
  }

  /** A run's marks after a step are marks it had, or the one of the bundle just handled. */
  lemma ActorsMarksStarted(crypto: Cryptography, s: System, a: Action, run: ExchangeRun)
    requires crypto.DiffieHellman() && crypto.CollisionFree() && Sound(crypto, s) && NothingLost(crypto, s)
    requires a.user in s.clients && !IsFailure(a)
    requires a.user in Do(crypto, s, a).clients && run in Do(crypto, s, a).clients[a.user].runs
    ensures MarksStarted(crypto, Do(crypto, s, a).clients[a.user], run)
  {
    hide Started, Continues, Genuine, crypto.DiffieHellman, crypto.CollisionFree, MarksStarted;
    ActorContinues(crypto, s, a);
    var c, d := s.clients[a.user], Do(crypto, s, a).clients[a.user];
    if run in c.runs {
      MarksStayStarted(crypto, c, d, run);
    } else if !a.StartRun? {
      assert a.k < |c.runs| && run == d.runs[a.k];
      MarksStayStarted(crypto, c, d, c.runs[a.k]);
      if a.Handle? {
        assert RunOk(crypto, s, a.user, c, c.runs[a.k]);
        HandleNextContinues(crypto, c, a.k);
        NextMarkStarted(crypto, c, a.k);
      } else {
        FewerMarksStarted(crypto, d, c.runs[a.k], run);
      }
    } else {
      NoMarksStarted(crypto, d, run);
    }
  }

  lemma NoMarksStarted(crypto: Cryptography, d: Client, run: ExchangeRun)
    requires run.marked == []
    ensures MarksStarted(crypto, d, run)
  {
  }

  lemma FewerMarksStarted(crypto: Cryptography, d: Client, run: ExchangeRun, next: ExchangeRun)
    requires MarksStarted(crypto, d, run) && forall h | h in next.marked :: h in run.marked
    ensures MarksStarted(crypto, d, next)
  {
    hide Started;
  }

  lemma NextMarkStarted(crypto: Cryptography, c: Client, k: nat)
    requires crypto.CollisionFree()
    requires k < |c.runs| && c.runs[k].bundles != []
    requires var d := HandleNext(crypto, c, k);
             && MarksStarted(crypto, d, c.runs[k])
             && var v := c.runs[k].bundles[0].content.senderPublicKey;
                v in c.runs[k].keyless ==> Started(d, v)
    ensures MarksStarted(crypto, HandleNext(crypto, c, k), HandleNext(crypto, c, k).runs[k])
  {
    hide Started;
  }

  lemma StartedStays(s: System, t: System, user: string, u: string, v: string)
    requires user in s.clients && user in t.clients && t.clients == s.clients[user := t.clients[user]]
    requires Continues(s.clients[user], t.clients[user]) && u in s.clients && Started(s.clients[u], v)
    ensures u in t.clients && Started(t.clients[u], v)
  {
    hide Started;
  }

  /** A bundle leaves the store when a run deletes it, and then its derivation was started before. */
  lemma DeletedWasStarted(crypto: Cryptography, s: System, a: Action, b: Bundle)
    requires Sound(crypto, s) && NothingLost(crypto, s) && a.user in s.clients
    requires b in s.bundles && b !in Do(crypto, s, a).bundles
    ensures b.receiver == a.user && Started(s.clients[a.user], b.content.senderPublicKey)
  {
    hide Started, ClientOk;
    var c := s.clients[a.user];
    assert a.Delete?;
    DeletedMembers(s.bundles, c.runs[a.k].marked[0], a.user);
    assert Genuine(crypto, s, b) && HashOf(crypto, b.content) in c.runs[a.k].marked;
    assert MarksStarted(crypto, c, c.runs[a.k]);
  }

  /** Steps without a failure lose nothing. */
  lemma StepLosesNothing(crypto: Cryptography, s: System, a: Action)
    requires crypto.DiffieHellman() && crypto.CollisionFree() && Sound(crypto, s) && NothingLost(crypto, s)
    requires !IsFailure(a)
    ensures NothingLost(crypto, Do(crypto, s, a))
  {
    hide Started, Continues, Sound, MarksStarted, Do, crypto.DiffieHellman, crypto.CollisionFree;
    var t := Do(crypto, s, a);
    if a.user !in s.clients {
      UnknownUserChangesNothing(crypto, s, a);
    } else {
      ActorContinues(crypto, s, a);
      forall u, run | u in t.clients && run in t.clients[u].runs ensures MarksStarted(crypto, t.clients[u], run) {
        if u == a.user { ActorsMarksStarted(crypto, s, a, run); }
      }
      forall b | b in t.accepted ensures NotLost(t, b) {
        AcceptedWasStored(crypto, s, a, b);
        if b in s.accepted && b !in t.bundles {
          if b in s.bundles { DeletedWasStarted(crypto, s, a, b); }
          StartedStays(s, t, a.user, b.receiver, b.content.senderPublicKey);
        }
      }
    }
  }

  lemma UnknownUserChangesNothing(crypto: Cryptography, s: System, a: Action)
    requires a.user !in s.clients
    ensures Do(crypto, s, a) == s
  {
  }

  lemma AcceptedWasStored(crypto: Cryptography, s: System, a: Action, b: Bundle)
    requires b in Do(crypto, s, a).accepted
    ensures b in s.accepted || b in Do(crypto, s, a).bundles
  {
  }

  lemma {:induction false} RunLosesNothing(crypto: Cryptography, s: System, actions: seq<Action>)
    requires crypto.DiffieHellman() && crypto.CollisionFree() && Sound(crypto, s) && NothingLost(crypto, s)
    requires forall a | a in actions :: !IsFailure(a)
    ensures NothingLost(crypto, DoAll(crypto, s, actions))
    decreases |actions|
  {
    hide Sound, NothingLost, crypto.DiffieHellman, crypto.CollisionFree, Do, IsFailure;
    if actions != [] {
      RunLosesNothing(crypto, s, actions[..|actions| - 1]);
      RunKeepsSound(crypto, s, actions[..|actions| - 1]);
      StepLosesNothing(crypto, DoAll(crypto, s, actions[..|actions| - 1]), actions[|actions| - 1]);
    }
  }

  // ----- the results -----

  /**
     In every interleaving, also with clients that stop, a room's key is the Diffie-Hellman
     secret of its own private key and the public key of the peer's room, so two users who hold
     a key for their mutual room hold the same one.
   */
  lemma KeysAgree(crypto: Cryptography, start: System, actions: seq<Action>, u: string, v: string)
    requires crypto.DiffieHellman() && Initial(start)
    requires var s := DoAll(crypto, start, actions);
             u in s.clients && v in s.clients[u].rooms && s.clients[u].rooms[v].symmetricKey != ""
    ensures var s := DoAll(crypto, start, actions);
            && v in s.clients && u in s.clients[v].rooms
            && s.clients[u].rooms[v].symmetricKey
               == crypto.deriveShared(s.clients[u].rooms[v].dhPrivateKey,
                                      crypto.publicOf(s.clients[v].rooms[u].dhPrivateKey))
            && (s.clients[v].rooms[u].symmetricKey != "" ==>
                  s.clients[v].rooms[u].symmetricKey == s.clients[u].rooms[v].symmetricKey)
  {
    hide Sound, RunOk, Genuine, Do, DoAll, Initial;
    InitiallySound(crypto, start);
    RunKeepsSound(crypto, start, actions);
    var s := DoAll(crypto, start, actions);
    ClientIsOk(crypto, s, u);
    assert KeyOk(crypto, s, u, v, s.clients[u].rooms[v]);
    ClientIsOk(crypto, s, v);
    assert KeyOk(crypto, s, v, u, s.clients[v].rooms[u]);
  }

  /** Once a room has a key, nothing that happens later changes it. */
  lemma KeysNeverChange(crypto: Cryptography, s: System, actions: seq<Action>, u: string, v: string)
    requires crypto.DiffieHellman() && Sound(crypto, s)
    requires u in s.clients && v in s.clients[u].rooms && s.clients[u].rooms[v].symmetricKey != ""
    ensures var t := DoAll(crypto, s, actions);
            && u in t.clients && v in t.clients[u].rooms
            && t.clients[u].rooms[v].symmetricKey == s.clients[u].rooms[v].symmetricKey
  {
    hide Sound, RunOk, Genuine, Do, DoAll, crypto.DiffieHellman;
    RunKeepsSound(crypto, s, actions);
    var t := DoAll(crypto, s, actions);
    ClientIsOk(crypto, s, u);
    ClientIsOk(crypto, t, u);
    assert KeyOk(crypto, s, u, v, s.clients[u].rooms[v]);
    assert KeyOk(crypto, t, u, v, t.clients[u].rooms[v]);
  }

  /**
     In every interleaving without a failure, a bundle the server once accepted is stored
     still, or its receiver has or is deriving the key.
   */
  lemma NoExchangeIsLost(crypto: Cryptography, start: System, actions: seq<Action>, b: Bundle)
    requires crypto.DiffieHellman() && crypto.CollisionFree() && Initial(start)
    requires forall a | a in actions :: !IsFailure(a)
    requires b in DoAll(crypto, start, actions).accepted
    ensures NotLost(DoAll(crypto, start, actions), b)
  {
    InitiallySound(crypto, start);
    RunLosesNothing(crypto, start, actions);
  }

  // ----- progress -----

  function Times(crypto: Cryptography, s: System, a: Action, n: nat): System {
    if n == 0 then s else Do(crypto, Times(crypto, s, a, n - 1), a)
  }

  /** The derivations that handling some bundles starts. */
  function DerivationsOf(keyless: set<string>, bundles: seq<Bundle>): seq<Derivation> {
    if bundles == [] then []
    else
      var content := bundles[|bundles| - 1].content;
      DerivationsOf(keyless, bundles[..|bundles| - 1])
      + (if content.senderPublicKey in keyless then [Derivation(content.senderPublicKey, content.dhPublicKey)] else [])
  }

  /** The hashes of the bundles that handling some bundles marks for deletion. */
  function MarksOf(crypto: Cryptography, keyless: set<string>, bundles: seq<Bundle>): seq<string> {
    if bundles == [] then []
    else
      var content := bundles[|bundles| - 1].content;
      MarksOf(crypto, keyless, bundles[..|bundles| - 1])
      + (if content.senderPublicKey in keyless then [HashOf(crypto, content)] else [])
  }

  lemma {:induction false} DerivationForEachKeyless(keyless: set<string>, bundles: seq<Bundle>, b: Bundle)
    requires b in bundles && b.content.senderPublicKey in keyless
    ensures Derivation(b.content.senderPublicKey, b.content.dhPublicKey) in DerivationsOf(keyless, bundles)
    decreases |bundles|
  {
    if b in bundles[..|bundles| - 1] {
      DerivationForEachKeyless(keyless, bundles[..|bundles| - 1], b);
    }
  }

  /** The client after n bundles of run k were handled. */
  function AfterHandling(crypto: Cryptography, c: Client, k: nat, n: nat): Client
    requires k < |c.runs| && n <= |c.runs[k].bundles|
  {
    var run := c.runs[k];
    c.(deriving := c.deriving + DerivationsOf(run.keyless, run.bundles[..n]),
       runs := c.runs[k := run.(bundles := run.bundles[n..], marked := run.marked + MarksOf(crypto, run.keyless,
                                run.bundles[..n]))])
  }

  lemma OneMoreHandled(crypto: Cryptography, c: Client, k: nat, n: nat)
    requires k < |c.runs| && n < |c.runs[k].bundles|
    ensures HandleNext(crypto, AfterHandling(crypto, c, k, n), k) == AfterHandling(crypto, c, k, n + 1)
  {
    var run := c.runs[k];
    assert run.bundles[..n + 1][..n] == run.bundles[..n];
    assert run.bundles[n..][1..] == run.bundles[n + 1..];
    var next, after := HandleNext(crypto, AfterHandling(crypto, c, k, n), k), AfterHandling(crypto, c, k, n + 1);
    assert next.deriving == after.deriving;
    assert next.runs[k] == after.runs[k];
    assert next.runs == after.runs;
  }

  /** Handling bundles one by one starts the derivations, and marks the hashes, of the list as a whole. */
  lemma {:induction false} HandlingGoesThroughTheList(crypto: Cryptography, s: System, u: string, k: nat, n: nat)
    requires u in s.clients && k < |s.clients[u].runs| && n <= |s.clients[u].runs[k].bundles|
    ensures Times(crypto, s, Handle(u, k), n)
            == s.(clients := s.clients[u := AfterHandling(crypto, s.clients[u], k, n)])
    decreases n
  {
    hide HandleNext, DerivationsOf, MarksOf;
    var c := s.clients[u];
    if n == 0 {
      NothingHandled(crypto, c, k);
      assert s.clients[u := c] == s.clients;
    } else {
      HandlingGoesThroughTheList(crypto, s, u, k, n - 1);
      OneMoreHandled(crypto, c, k, n - 1);
    }
  }

  lemma NothingHandled(crypto: Cryptography, c: Client, k: nat)
    requires k < |c.runs|
    ensures AfterHandling(crypto, c, k, 0) == c
  {
    var d := AfterHandling(crypto, c, k, 0);
    assert c.runs[k].bundles[0..] == c.runs[k].bundles && d.runs[k] == c.runs[k];
    assert d.runs == c.runs && d.deriving == c.deriving;
  }

  lemma {:induction false} TimesKeepsSound(crypto: Cryptography, s: System, a: Action, n: nat)
    requires crypto.DiffieHellman() && Sound(crypto, s)
    ensures Sound(crypto, Times(crypto, s, a, n)) && Later(s, Times(crypto, s, a, n))
    decreases n
  {
    hide Sound, Later, crypto.DiffieHellman, Do;
    if n == 0 {
      LaterIsReflexive(s);
    } else {
      TimesKeepsSound(crypto, s, a, n - 1);
      StepKeepsSound(crypto, Times(crypto, s, a, n - 1), a);
      LaterIsTransitive(s, Times(crypto, s, a, n - 1), Times(crypto, s, a, n));
    }
  }

  lemma {:induction false} TimesLosesNothing(crypto: Cryptography, s: System, a: Action, n: nat)
    requires crypto.DiffieHellman() && crypto.CollisionFree() && Sound(crypto, s) && NothingLost(crypto, s)
    requires !IsFailure(a)
    ensures NothingLost(crypto, Times(crypto, s, a, n))
    decreases n
  {
    hide Sound, NothingLost, crypto.DiffieHellman, crypto.CollisionFree, Do, IsFailure;
    if n > 0 {
      TimesLosesNothing(crypto, s, a, n - 1);
      TimesKeepsSound(crypto, s, a, n - 1);
      StepLosesNothing(crypto, Times(crypto, s, a, n - 1), a);
    }
  }

  /** Finishing derivations one by one leaves as many fewer, and what was started stays so. */
  lemma {:induction false} DerivationsFinish(crypto: Cryptography, s: System, u: string, n: nat)
    requires crypto.DiffieHellman() && Sound(crypto, s)
    requires u in s.clients && n <= |s.clients[u].deriving|
    ensures var t := Times(crypto, s, FinishDerivation(u, 0), n);
            && u in t.clients && |t.clients[u].deriving| == |s.clients[u].deriving| - n
            && Continues(s.clients[u], t.clients[u])
    decreases n
  {
    hide Sound, Started, crypto.DiffieHellman;
    if n > 0 {
      DerivationsFinish(crypto, s, u, n - 1);
      TimesKeepsSound(crypto, s, FinishDerivation(u, 0), n - 1);
      FinishDerivationIsSound(crypto, Times(crypto, s, FinishDerivation(u, 0), n - 1), FinishDerivation(u, 0));
      FinishContinues(crypto, Times(crypto, s, FinishDerivation(u, 0), n - 1), FinishDerivation(u, 0));
    }
  }

  /** A derivation that ends changes its client alone, and there its own room alone. */
  lemma FinishIsLocal(crypto: Cryptography, s: System, u: string, v: string)
    requires u in s.clients
    ensures
      var t, c := Do(crypto, s, FinishDerivation(u, 0)), s.clients[u];
      && t.bundles == s.bundles && t.accepted == s.accepted && u in t.clients
      && t.clients == s.clients[u := t.clients[u]]
      && (forall d | d in t.clients[u].deriving :: d in c.deriving)
      && (v in c.rooms && (forall d | d in c.deriving :: d.recipient != v) ==>
            v in t.clients[u].rooms && t.clients[u].rooms[v] == c.rooms[v])
  {
    hide Without;
    assert s.clients[u := s.clients[u]] == s.clients;
    if s.clients[u].deriving != [] { WithoutMembers(s.clients[u].deriving, 0); }
  }

  /** Finishing derivations for other rooms does not touch the room for v. */
  lemma {:induction false} OtherDerivationsLeaveTheRoom(crypto: Cryptography, s: System, u: string, v: string, n: nat)
    requires u in s.clients && v in s.clients[u].rooms && forall d | d in s.clients[u].deriving :: d.recipient != v
    ensures var t := Times(crypto, s, FinishDerivation(u, 0), n);
            && u in t.clients && v in t.clients[u].rooms && t.clients[u].rooms[v] == s.clients[u].rooms[v]
            && forall d | d in t.clients[u].deriving :: d.recipient != v
    decreases n
  {
    hide Do;
    if n > 0 {
      OtherDerivationsLeaveTheRoom(crypto, s, u, v, n - 1);
      FinishIsLocal(crypto, Times(crypto, s, FinishDerivation(u, 0), n - 1), u, v);
    }
  }

  /** A user starts a run, fetches its bundles, and handles all of them, without interruption. */
  function Handled(crypto: Cryptography, s: System, u: string): (r: System)
    requires u in s.clients
    ensures u in r.clients
  {
    var k := |s.clients[u].runs|;
    var fetched := Do(crypto, Do(crypto, s, StartRun(u)), Fetch(u, k));
    HandlingGoesThroughTheList(crypto, fetched, u, k, |fetched.clients[u].runs[k].bundles|);
    Times(crypto, fetched, Handle(u, k), |fetched.clients[u].runs[k].bundles|)
  }

  /** One whole exchange of a user: the handling of all bundles, and then every derivation to its end. */
  function Exchange(crypto: Cryptography, s: System, u: string): System
    requires u in s.clients
  {
    var handled := Handled(crypto, s, u);
    Times(crypto, handled, FinishDerivation(u, 0), |handled.clients[u].deriving|)
  }

  /** What the handling of all bundles changes, as a whole: one more run and its derivations. */
  lemma HandledAsAWhole(crypto: Cryptography, s: System, u: string)
    requires u in s.clients
    ensures
      var c, keyless, bundles := s.clients[u], Keyless(s.clients[u].rooms), ForReceiver(s.bundles, u);
      Handled(crypto, s, u) == s.(clients := s.clients[u := c.(
        deriving := c.deriving + DerivationsOf(keyless, bundles),
        runs := c.runs + [ExchangeRun(keyless, [], MarksOf(crypto, keyless, bundles))])])
  {
    hide Times, DerivationsOf, MarksOf, ForReceiver, Keyless;
    var c, k := s.clients[u], |s.clients[u].runs|;
    var fetched := Do(crypto, Do(crypto, s, StartRun(u)), Fetch(u, k));
    var run := ExchangeRun(Keyless(c.rooms), ForReceiver(s.bundles, u), []);
    assert fetched.clients[u].runs == c.runs + [run];
    HandlingGoesThroughTheList(crypto, fetched, u, k, |run.bundles|);
    assert run.bundles[..|run.bundles|] == run.bundles && run.bundles[|run.bundles|..] == [];
    var after := AfterHandling(crypto, fetched.clients[u], k, |run.bundles|);
    assert fetched.clients[u].runs[k] == run && after.runs[k].marked == MarksOf(crypto, run.keyless, run.bundles);
    assert after.runs == c.runs + [ExchangeRun(run.keyless, [], MarksOf(crypto, run.keyless, run.bundles))];
  }

  lemma HandlingKeepsSound(crypto: Cryptography, s: System, u: string)
    requires crypto.DiffieHellman() && Sound(crypto, s) && u in s.clients
    ensures Sound(crypto, Handled(crypto, s, u)) && Later(s, Handled(crypto, s, u))
  {
    hide Sound, Later, Times, crypto.DiffieHellman;
    var k := |s.clients[u].runs|;
    var started := Do(crypto, s, StartRun(u));
    var fetched := Do(crypto, started, Fetch(u, k));
    StepKeepsSound(crypto, s, StartRun(u));
    StepKeepsSound(crypto, started, Fetch(u, k));
    TimesKeepsSound(crypto, fetched, Handle(u, k), |fetched.clients[u].runs[k].bundles|);
    LaterIsTransitive(s, started, fetched);
    LaterIsTransitive(s, fetched, Handled(crypto, s, u));
  }

  lemma ExchangeKeepsSound(crypto: Cryptography, s: System, u: string)
    requires crypto.DiffieHellman() && Sound(crypto, s) && u in s.clients
    ensures Sound(crypto, Exchange(crypto, s, u)) && Later(s, Exchange(crypto, s, u))
  {
    hide Sound, Later, Times, Handled, crypto.DiffieHellman;
    HandlingKeepsSound(crypto, s, u);
    var handled := Handled(crypto, s, u);
    TimesKeepsSound(crypto, handled, FinishDerivation(u, 0), |handled.clients[u].deriving|);
    LaterIsTransitive(s, handled, Exchange(crypto, s, u));
  }

  /** The store holds a bundle from u for v. */
  ghost predicate StoredFor(s: System, u: string, v: string) {
    exists b :: b in s.bundles && b.content.senderPublicKey == u && b.receiver == v
  }

  /** The handling of all bundles starts the derivation of v's room for u exactly when there is a bundle to handle. */
  lemma HandlingStartsDerivationExactly(crypto: Cryptography, s: System, u: string, v: string)
    requires v in s.clients && u in s.clients[v].rooms
    ensures Started(Handled(crypto, s, v).clients[v], u) <==> Started(s.clients[v], u) || StoredFor(s, u, v)
  {
    hide Handled;
    var c, d := s.clients[v], Handled(crypto, s, v).clients[v];
    var keyless, bundles := Keyless(c.rooms), ForReceiver(s.bundles, v);
    HandledAsAWhole(crypto, s, v);
    ReceiversAreMembers(s.bundles, v);
    DerivationsAreOfBundles(keyless, bundles);
    if StoredFor(s, u, v) && u in keyless {
      var b :| b in s.bundles && b.content.senderPublicKey == u && b.receiver == v;
      DerivationForEachKeyless(keyless, bundles, b);
      assert Derivation(u, b.content.dhPublicKey) in d.deriving;
    }
    assert forall x | x in c.deriving :: x in d.deriving;
  }

  lemma {:induction false} DerivationsAreOfBundles(keyless: set<string>, bundles: seq<Bundle>)
    ensures forall d | d in DerivationsOf(keyless, bundles) ::
              exists b :: b in bundles && b.content.senderPublicKey == d.recipient
    decreases |bundles|
  {
    if bundles != [] {
      DerivationsAreOfBundles(keyless, bundles[..|bundles| - 1]);
      assert bundles[|bundles| - 1] in bundles;
    }
  }

  /**
     An exchange of v, from any sound state, gives v the key for u exactly when v has it or is
     deriving it, or a bundle from u for v is stored.
   */
  lemma ExchangeYieldsKeyExactlyWhen(crypto: Cryptography, s: System, u: string, v: string)
    requires crypto.DiffieHellman() && Sound(crypto, s) && v in s.clients && u in s.clients[v].rooms
    ensures
      var t := Exchange(crypto, s, v);
      && v in t.clients && u in t.clients[v].rooms
      && (t.clients[v].rooms[u].symmetricKey != "" <==> Started(s.clients[v], u) || StoredFor(s, u, v))
  {
    hide Sound, Later, Times, Handled, StoredFor, crypto.DiffieHellman;
    var handled := Handled(crypto, s, v);
    HandlingKeepsSound(crypto, s, v);
    HandledAsAWhole(crypto, s, v);
    HandlingStartsDerivationExactly(crypto, s, u, v);
    var n := |handled.clients[v].deriving|;
    if Started(handled.clients[v], u) {
      DerivationsFinish(crypto, handled, v, n);
    } else {
      OtherDerivationsLeaveTheRoom(crypto, handled, v, u, n);
    }
  }

  lemma SenderHasTheRoom(crypto: Cryptography, s: System, b: Bundle)
    requires Sound(crypto, s) && b in s.accepted
    ensures b.content.senderPublicKey in s.clients && b.receiver in s.clients[b.content.senderPublicKey].rooms
  {
    assert Genuine(crypto, s, b);
  }

  lemma NonEmptyKeysAgree(crypto: Cryptography, s: System, u: string, v: string)
    requires crypto.DiffieHellman() && Sound(crypto, s)
    requires u in s.clients && v in s.clients && v in s.clients[u].rooms && u in s.clients[v].rooms
    requires s.clients[u].rooms[v].symmetricKey != "" && s.clients[v].rooms[u].symmetricKey != ""
    ensures s.clients[u].rooms[v].symmetricKey == s.clients[v].rooms[u].symmetricKey
  {
    hide Sound, RunOk, Genuine;
    ClientIsOk(crypto, s, u);
    assert KeyOk(crypto, s, u, v, s.clients[u].rooms[v]);
    ClientIsOk(crypto, s, v);
    assert KeyOk(crypto, s, v, u, s.clients[v].rooms[u]);
  }

  /** An exchange of u leaves the store and all other clients as they are. */
  lemma ExchangeLeavesOthers(crypto: Cryptography, s: System, u: string)
    requires u in s.clients
    ensures var t := Exchange(crypto, s, u);
            && t.bundles == s.bundles && t.accepted == s.accepted && u in t.clients
            && t.clients == s.clients[u := t.clients[u]]
  {
    hide Handled;
    HandledAsAWhole(crypto, s, u);
    var handled := Handled(crypto, s, u);
    FinishingLeavesOthers(crypto, handled, u, |handled.clients[u].deriving|);
  }

  lemma {:induction false} FinishingLeavesOthers(crypto: Cryptography, s: System, u: string, n: nat)
    requires u in s.clients
    ensures var t := Times(crypto, s, FinishDerivation(u, 0), n);
            && t.bundles == s.bundles && t.accepted == s.accepted && u in t.clients
            && t.clients == s.clients[u := t.clients[u]]
    decreases n
  {
    hide Do;
    if n == 0 {
      assert s.clients[u := s.clients[u]] == s.clients;
    } else {
      FinishingLeavesOthers(crypto, s, u, n - 1);
      FinishIsLocal(crypto, Times(crypto, s, FinishDerivation(u, 0), n - 1), u, u);
    }
  }

  /** Two users for whom nothing is lost, each with an accepted bundle, share a key once each has run an exchange. */
  lemma TwoExchangesShareAKey(crypto: Cryptography, s: System, toU: Bundle, toV: Bundle)
    requires crypto.DiffieHellman() && Sound(crypto, s)
    requires toU in s.accepted && toV in s.accepted && NotLost(s, toU) && NotLost(s, toV)
    requires toU.receiver == toV.content.senderPublicKey && toV.receiver == toU.content.senderPublicKey
    ensures toU.receiver in s.clients && toV.receiver in Exchange(crypto, s, toU.receiver).clients
    ensures var (u, v) := (toU.receiver, toV.receiver);
            var t := Exchange(crypto, Exchange(crypto, s, u), v);
            && u in t.clients && v in t.clients[u].rooms && v in t.clients && u in t.clients[v].rooms
            && t.clients[u].rooms[v].symmetricKey == t.clients[v].rooms[u].symmetricKey != ""
  {
    hide Exchange, Sound, Started, crypto.DiffieHellman;
    var u, v := toU.receiver, toV.receiver;
    SenderHasTheRoom(crypto, s, toU);
    SenderHasTheRoom(crypto, s, toV);
    var r := Exchange(crypto, s, u);
    ExchangeKeepsSound(crypto, s, u);
    ExchangeLeavesOthers(crypto, s, u);
    ExchangeYieldsKeyExactlyWhen(crypto, s, v, u);
    if u == v {
      KeyIsStarted(r.clients[u], u);
    }
    ExchangeKeepsSound(crypto, r, v);
    ExchangeYieldsKeyExactlyWhen(crypto, r, u, v);
    var t := Exchange(crypto, r, v);
    assert Grows(r.clients[u], t.clients[u]);
    NonEmptyKeysAgree(crypto, t, u, v);
  }

  lemma KeyIsStarted(c: Client, v: string)
    requires v in c.rooms && c.rooms[v].symmetricKey != ""
    ensures Started(c, v)
  {
  }

  function WithMarks(c: Client, k: nat, marked: seq<string>): Client
    requires k < |c.runs|
  {
    c.(runs := c.runs[k := c.runs[k].(marked := marked)])
  }

  lemma DeleteOnce(crypto: Cryptography, s: System, u: string, k: nat)
    requires u in s.clients && k < |s.clients[u].runs|
    requires s.clients[u].runs[k].bundles == [] && s.clients[u].runs[k].marked != []
    ensures
      var marked, t := s.clients[u].runs[k].marked, Do(crypto, s, Delete(u, k));
      && t.clients == s.clients[u := WithMarks(s.clients[u], k, marked[1..])]
      && t.bundles == Deleted(s.bundles, marked[0], u)
  {
  }

  lemma MarksReplaced(c: Client, k: nat, a: seq<string>, b: seq<string>)
    requires k < |c.runs|
    ensures WithMarks(c, k, c.runs[k].marked) == c
    ensures WithMarks(WithMarks(c, k, a), k, b) == WithMarks(c, k, b)
  {
    assert c.runs[k := c.runs[k].(marked := c.runs[k].marked)] == c.runs;
    assert WithMarks(WithMarks(c, k, a), k, b).runs == WithMarks(c, k, b).runs;
  }

  /** Deleting as often as there are marks removes exactly the user's marked bundles, and ends with no mark. */
  lemma {:induction false} DeletionsGoThroughTheMarks(crypto: Cryptography, s: System, u: string, k: nat, n: nat)
    requires u in s.clients && k < |s.clients[u].runs| && s.clients[u].runs[k].bundles == []
    requires n <= |s.clients[u].runs[k].marked|
    ensures
      var marked, t := s.clients[u].runs[k].marked, Times(crypto, s, Delete(u, k), n);
      && t.clients == s.clients[u := WithMarks(s.clients[u], k, marked[n..])]
      && forall b :: b in t.bundles <==> b in s.bundles && !(b.receiver == u && b.contentHash in marked[..n])
    decreases n
  {
    hide Deleted, Do;
    var c := s.clients[u];
    var marked := c.runs[k].marked;
    if n == 0 {
      MarksReplaced(c, k, [], []);
      assert marked[0..] == marked && s.clients[u := c] == s.clients;
    } else {
      DeletionsGoThroughTheMarks(crypto, s, u, k, n - 1);
      var before := Times(crypto, s, Delete(u, k), n - 1);
      DeleteOnce(crypto, before, u, k);
      MarksReplaced(c, k, marked[n - 1..], marked[n..]);
      DeletedMembers(before.bundles, marked[n - 1], u);
      assert marked[n - 1..][1..] == marked[n..];
      assert marked[..n] == marked[..n - 1] + [marked[n - 1]];
    }
  }

  lemma HashStoredMeans(bundles: seq<Bundle>, hash: string)
    ensures HashStored(bundles, hash) <==> exists b :: b in bundles && b.contentHash == hash
  {
  }

  /** A post reaches the store exactly when the server takes it and no stored bundle has its hash. */
  lemma PostIsStoredExactlyWhenNew(crypto: Cryptography, s: System, u: string, k: nat, taken: bool)
    requires u in s.clients && k < |s.clients[u].posting|
    ensures
      var b, t := s.clients[u].posting[k], Do(crypto, s, Post(u, k, taken));
      if taken && forall x | x in s.bundles :: x.contentHash != b.contentHash
      then t.bundles == s.bundles + [b] && t.accepted == s.accepted + {b}
      else t.bundles == s.bundles && t.accepted == s.accepted
  {
    HashStoredMeans(s.bundles, s.clients[u].posting[k].contentHash);
  }

  /** A run that ends early deletes nothing more, and what it has started goes on. */
  lemma EndedRunLeavesItsBundles(crypto: Cryptography, s: System, u: string, k: nat)
    requires u in s.clients && k < |s.clients[u].runs|
    ensures
      var t := Do(crypto, s, EndRun(u, k));
      && t == s.(clients := s.clients[u := s.clients[u].(runs := t.clients[u].runs)])
      && |t.clients[u].runs| == |s.clients[u].runs| - 1
      && forall j | 0 <= j < |t.clients[u].runs| ::
           t.clients[u].runs[j] == s.clients[u].runs[if j < k then j else j + 1]
  {
  }

  // ----- rooms that have a key -----

  lemma {:induction false} MarksAreOfBundles(crypto: Cryptography, keyless: set<string>, bundles: seq<Bundle>)
    ensures forall h | h in MarksOf(crypto, keyless, bundles) ::
              exists b :: b in bundles && HashOf(crypto, b.content) == h && b.content.senderPublicKey in keyless
    decreases |bundles|
  {
    if bundles != [] {
      var rest, last := bundles[..|bundles| - 1], bundles[|bundles| - 1];
      MarksAreOfBundles(crypto, keyless, rest);
      forall h | h in MarksOf(crypto, keyless, bundles)
        ensures exists b :: b in bundles && HashOf(crypto, b.content) == h && b.content.senderPublicKey in keyless
      {
        if h in MarksOf(crypto, keyless, rest) {
          var b :| b in rest && HashOf(crypto, b.content) == h && b.content.senderPublicKey in keyless;
          assert b in bundles;
        } else {
          assert last in bundles;
        }
      }
    }
  }

  /** A run leaves a room alone that has its key: it starts no derivation for it, and deletes none of its bundles. */
  lemma KeyedRoomIsLeftAlone(crypto: Cryptography, s: System, u: string, v: string)
    requires crypto.CollisionFree() && Sound(crypto, s)
    requires v in s.clients && u in s.clients[v].rooms && s.clients[v].rooms[u].symmetricKey != ""
    ensures
      var handled, k, c := Handled(crypto, s, v), |s.clients[v].runs|, s.clients[v];
      && k < |handled.clients[v].runs|
      && c.deriving <= handled.clients[v].deriving
      && (forall i | |c.deriving| <= i < |handled.clients[v].deriving| :: handled.clients[v].deriving[i].recipient != u)
      && var t := Times(crypto, handled, Delete(v, k), |handled.clients[v].runs[k].marked|);
         forall b: Bundle | b.content.senderPublicKey == u && b.receiver == v :: b in t.bundles <==> b in s.bundles
  {
    hide Sound, Times, Handled, DerivationsOf, MarksOf, ForReceiver, crypto.CollisionFree;
    var handled, k, c := Handled(crypto, s, v), |s.clients[v].runs|, s.clients[v];
    var keyless, bundles := Keyless(c.rooms), ForReceiver(s.bundles, v);
    HandledAsAWhole(crypto, s, v);
    DerivationsAreOfKeyless(keyless, bundles);
    var marked := handled.clients[v].runs[k].marked;
    DeletionsGoThroughTheMarks(crypto, handled, v, k, |marked|);
    assert marked[..|marked|] == marked && u !in keyless;
    MarksAreOfBundles(crypto, keyless, bundles);
    forall b | b in s.bundles && b.content.senderPublicKey == u && b.receiver == v ensures b.contentHash !in marked {
      StoredIsGenuine(crypto, s, b);
      forall x: Bundle | HashOf(crypto, x.content) == b.contentHash ensures x.content.senderPublicKey == u {
        SameHashSameContent(crypto, x.content, b.content);
      }
    }
  }

  lemma SameHashSameContent(crypto: Cryptography, a: Content, b: Content)
    requires crypto.CollisionFree() && HashOf(crypto, a) == HashOf(crypto, b)
    ensures a == b
  {
  }

  lemma StoredIsGenuine(crypto: Cryptography, s: System, b: Bundle)
    requires Sound(crypto, s) && b in s.bundles
    ensures Genuine(crypto, s, b)
  {
  }

  lemma {:induction false} DerivationsAreOfKeyless(keyless: set<string>, bundles: seq<Bundle>)
    ensures forall d | d in DerivationsOf(keyless, bundles) :: d.recipient in keyless
    decreases |bundles|
  {
    if bundles != [] { DerivationsAreOfKeyless(keyless, bundles[..|bundles| - 1]); }
  }

  // ----- a key needs an accepted bundle -----

  /** A bundle from u for v was accepted once. */
  ghost predicate Accepted(accepted: set<Bundle>, u: string, v: string) {
    exists b :: b in accepted && b.content.senderPublicKey == u && b.receiver == v
  }

  /** Whatever v holds, derives or handles came with an accepted bundle. */
  ghost predicate Sourced(s: System, v: string, c: Client) {
    && (forall r | r in c.rooms && c.rooms[r].symmetricKey != "" :: Accepted(s.accepted, r, v))
    && (forall d | d in c.deriving :: Accepted(s.accepted, d.recipient, v))
    && (forall run, b | run in c.runs && b in run.bundles :: Accepted(s.accepted, b.content.senderPublicKey, v))
  }

  ghost predicate AllSourced(s: System) {
    && (forall b | b in s.bundles :: b in s.accepted)
    && forall v | v in s.clients :: Sourced(s, v, s.clients[v])
  }

  lemma ClientIsSourced(s: System, v: string)
    requires AllSourced(s) && v in s.clients
    ensures Sourced(s, v, s.clients[v])
  {
  }

  lemma SourcedStays(s: System, t: System, v: string, c: Client)
    requires s.accepted <= t.accepted && Sourced(s, v, c)
    ensures Sourced(t, v, c)
  {
    forall u | Accepted(s.accepted, u, v) ensures Accepted(t.accepted, u, v) {
      var b :| b in s.accepted && b.content.senderPublicKey == u && b.receiver == v;
      assert b in t.accepted;
    }
  }

  lemma StepKeepsSourced(crypto: Cryptography, s: System, a: Action)
    requires AllSourced(s)
    ensures AllSourced(Do(crypto, s, a))
  {
    hide Sourced, Accepted;
    var t := Do(crypto, s, a);
    if a.user in s.clients {
      ActorStaysSourced(crypto, s, a);
      AcceptedOnlyGrows(crypto, s, a);
      forall v | v in t.clients && v != a.user ensures Sourced(t, v, t.clients[v]) {
        SourcedStays(s, t, v, s.clients[v]);
      }
    }
  }

  lemma AcceptedOnlyGrows(crypto: Cryptography, s: System, a: Action)
    requires a.user in s.clients && forall b | b in s.bundles :: b in s.accepted
    ensures var t := Do(crypto, s, a);
            && s.accepted <= t.accepted && (forall b | b in t.bundles :: b in t.accepted)
            && a.user in t.clients && t.clients == s.clients[a.user := t.clients[a.user]]
  {
    var c := s.clients[a.user];
    if a.Delete? && a.k < |c.runs| && c.runs[a.k].marked != [] {
      DeletedMembers(s.bundles, c.runs[a.k].marked[0], a.user);
    }
  }

  lemma ActorStaysSourced(crypto: Cryptography, s: System, a: Action)
    requires AllSourced(s) && a.user in s.clients
    ensures var t := Do(crypto, s, a);
            a.user in t.clients && Sourced(t, a.user, t.clients[a.user])
  {
    hide Do, Sourced;
    AcceptedOnlyGrows(crypto, s, a);
    if a.CreateRoom? || a.Post? || a.FinishDerivation? {
      ClientIsSourced(s, a.user);
      RoomStepStaysSourced(crypto, s, a);
    } else {
      RunStepStaysSourced(crypto, s, a);
    }
    SourcedStays(s, Do(crypto, s, a), a.user, Do(crypto, s, a).clients[a.user]);
  }

  lemma RoomStepStaysSourced(crypto: Cryptography, s: System, a: Action)
    requires a.user in s.clients && Sourced(s, a.user, s.clients[a.user])
    requires a.CreateRoom? || a.Post? || a.FinishDerivation?
    ensures var t := Do(crypto, s, a);
            a.user in t.clients && Sourced(s, a.user, t.clients[a.user])
  {
    hide Without, HashStored, Accepted;
    var c := s.clients[a.user];
    if a.FinishDerivation? && a.k < |c.deriving| { WithoutMembers(c.deriving, a.k); }
  }

  lemma RunStepStaysSourced(crypto: Cryptography, s: System, a: Action)
    requires AllSourced(s) && a.user in s.clients && !(a.CreateRoom? || a.Post? || a.FinishDerivation?)
    ensures var t := Do(crypto, s, a);
            a.user in t.clients && Sourced(s, a.user, t.clients[a.user])
  {
    hide Without, Deleted, ForReceiver, Accepted;
    var c := s.clients[a.user];
    assert Sourced(s, a.user, c);
    FetchedAreAccepted(s, a.user);
    if a.FailDerivation? {
      if a.k < |c.deriving| { WithoutMembers(c.deriving, a.k); }
    } else if !a.StartRun? && !a.Restart? && a.k < |c.runs| {
      WithoutMembers(c.runs, a.k);
      if c.runs[a.k].bundles != [] { assert c.runs[a.k].bundles[0] in c.runs[a.k].bundles; }
    }
  }

  lemma FetchedAreAccepted(s: System, v: string)
    requires forall b | b in s.bundles :: b in s.accepted
    ensures forall b | b in ForReceiver(s.bundles, v) :: Accepted(s.accepted, b.content.senderPublicKey, v)
  {
    ReceiversAreMembers(s.bundles, v);
  }

  lemma {:induction false} RunKeepsSourced(crypto: Cryptography, s: System, actions: seq<Action>)
    requires AllSourced(s)
    ensures AllSourced(DoAll(crypto, s, actions))
    decreases |actions|
  {
    hide AllSourced, Do;
    if actions != [] {
      RunKeepsSourced(crypto, s, actions[..|actions| - 1]);
      StepKeepsSourced(crypto, DoAll(crypto, s, actions[..|actions| - 1]), actions[|actions| - 1]);
    }
  }

  /** In every interleaving, v's room for u has a key only if the server accepted a bundle from u for v. */
  lemma KeyNeedsAcceptedBundle(crypto: Cryptography, start: System, actions: seq<Action>, u: string, v: string)
    requires Initial(start)
    requires var s := DoAll(crypto, start, actions);
             v in s.clients && u in s.clients[v].rooms && s.clients[v].rooms[u].symmetricKey != ""
    ensures exists b :: b in DoAll(crypto, start, actions).accepted && b.content.senderPublicKey == u && b.receiver == v
  {
    hide Do, DoAll;
    RunKeepsSourced(crypto, start, actions);
    assert Accepted(DoAll(crypto, start, actions).accepted, u, v);
  }

  lemma NothingIsSourced(s: System)
    requires Initial(s)
    ensures AllSourced(s)
  {
  }

  /** What v holds or derives for u, and what is stored for v, came with an accepted bundle. */
  lemma StartedNeedsAccepted(s: System, u: string, v: string)
    requires AllSourced(s) && v in s.clients && (Started(s.clients[v], u) || StoredFor(s, u, v))
    ensures Accepted(s.accepted, u, v)
  {
    hide Accepted;
    assert Sourced(s, v, s.clients[v]);
    if StoredFor(s, u, v) {
      var b :| b in s.bundles && b.content.senderPublicKey == u && b.receiver == v;
      AcceptedBundle(s.accepted, b);
    }
  }

  lemma AcceptedBundle(accepted: set<Bundle>, b: Bundle)
    requires b in accepted
    ensures Accepted(accepted, b.content.senderPublicKey, b.receiver)
  {
  }

  /**
     In every state that is reachable without a failure, an exchange of v gives v the key for u
     exactly when the server has accepted a bundle from u for v.
   */
  lemma ExchangeYieldsKeyExactlyWhenAccepted(crypto: Cryptography, start: System, actions: seq<Action>,
                                             u: string, v: string)
    requires crypto.DiffieHellman() && crypto.CollisionFree() && Initial(start)
    requires forall a | a in actions :: !IsFailure(a)
    requires var s := DoAll(crypto, start, actions);
             v in s.clients && u in s.clients[v].rooms
    ensures var s := DoAll(crypto, start, actions);
            var t := Exchange(crypto, s, v);
            && v in t.clients && u in t.clients[v].rooms
            && (t.clients[v].rooms[u].symmetricKey != "" <==>
                  exists b :: b in s.accepted && b.content.senderPublicKey == u && b.receiver == v)
  {
    hide Sound, Do, DoAll, Exchange, AllSourced, Started, IsFailure, crypto.DiffieHellman, crypto.CollisionFree;
    var s := DoAll(crypto, start, actions);
    InitiallySound(crypto, start);
    NothingIsSourced(start);
    RunKeepsSound(crypto, start, actions);
    RunKeepsSourced(crypto, start, actions);
    RunLosesNothing(crypto, start, actions);
    ExchangeYieldsKeyExactlyWhen(crypto, s, u, v);
    if Started(s.clients[v], u) || StoredFor(s, u, v) {
      StartedNeedsAccepted(s, u, v);
      assert Accepted(s.accepted, u, v);
    }
    if Accepted(s.accepted, u, v) {
      var b :| b in s.accepted && b.content.senderPublicKey == u && b.receiver == v;
      assert NotLost(s, b);
    }
  }
}
