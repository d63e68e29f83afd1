/** The key exchange as server and client run it, over the bundles and rooms they update. */
module KeyExchangeClient {
  import opened Prelude
  import opened UserServices
  import opened Admission
  import opened AdmissionRuns
  import opened AdmissionRules
  import opened Profiles
  import opened KeyExchange

  /** What a client names a bundle by when it asks for its deletion. */
  datatype BundleName = BundleName(contentHash: string, receiver: string)

  function DeletedAll(bundles: seq<Bundle>, names: seq<BundleName>): seq<Bundle> {
    if names == [] then bundles
    else
      var last := names[|names| - 1];
      Deleted(DeletedAll(bundles, names[..|names| - 1]), last.contentHash, last.receiver)
  }

  function Named(hashes: seq<string>, receiver: string): (names: seq<BundleName>)
    ensures |names| == |hashes|
  {
    seq(|hashes|, i requires 0 <= i < |hashes| => BundleName(hashes[i], receiver))
  }

  // ----- the rules for a request -----

  /** What a request proves: a rate-limiting proof, with the epoch and share it is counted under. */
  datatype Request = Request(proof: Proof, epoch: int, xShare: nat)

  datatype Violation = BadEpoch | Repeated | RootMissing | BadProof | Spam

  function RequestShare(r: Request): Share {
    Share(r.proof.internalNullifier, r.epoch, r.xShare, r.proof.yShare)
  }

  /** The first rule that a request violates, against the records of earlier requests. */
  function Violated(cfg: Config, stats: seq<Share>, root: Option<nat>, r: Request, now: int): Option<Violation> {
    if !VerifyEpoch(r.epoch, now, cfg.allowedDelay) then Some(BadEpoch)
    else if IsDuplicate(stats, RequestShare(r)) then Some(Repeated)
    else if root.None? then Some(RootMissing)
    else if !IsZkProofValid(cfg, r.proof, root.value) then Some(BadProof)
    else if IsSpam(stats, r.epoch, r.proof.internalNullifier, cfg.spamThreshold) then Some(Spam)
    else None
  }

  /**
     For a sound and complete proof system, a request violates no rule exactly when it is
     timely, new, proved by a member under the root, and within its sender's limit; otherwise
     the first of these that fails is named.
   */
  lemma ViolatedExactly(cfg: Config, stats: seq<Share>, root: Option<nat>, r: Request, now: int)
    requires Ideal(cfg) && Complete(cfg)
    ensures
      var violation := Violated(cfg, stats, root, r, now);
      var timely := Timely(cfg, r.epoch, now);
      var isNew := Share(r.proof.internalNullifier, r.epoch, r.xShare, r.proof.yShare) !in stats;
      && (violation == None <==> Passes(cfg, stats, root, r.proof, r.epoch, r.xShare, now))
      && (violation == Some(BadEpoch) <==> !timely)
      && (violation == Some(Repeated) <==> timely && !isNew)
      && (violation == Some(RootMissing) <==> timely && isNew && root == None)
      && (violation == Some(BadProof) <==> timely && isNew && root.Some? && !ProvesMember(cfg, r.proof, root.value))
  {
    hide Ideal, Complete, VerifyEpoch, IsZkProofValid, ProvesMember, Timely, SharesFor;
    TimelyIsTheEpochCheck(cfg, r.epoch, now);
    if root.Some? { ValidProofsAreOfMembers(cfg, r.proof, root.value); }
  }

  /** The stores of the service, and the calls that change them, with the root and the clock they meet. */
  datatype Service = Service(stats: seq<Share>, bundles: seq<Bundle>)

  datatype Call =
    | Create(bundle: Bundle, request: Request, root: Option<nat>, now: int)
    | Remove(names: seq<BundleName>, request: Request, root: Option<nat>, now: int)

  function Called(cfg: Config, s: Service, call: Call): Service {
    if Violated(cfg, s.stats, call.root, call.request, call.now).Some? then s
    else
      var recorded := s.(stats := s.stats + [RequestShare(call.request)]);
      match call
      case Create(bundle, _, _, _) =>
        if HashStored(s.bundles, bundle.contentHash) then recorded else recorded.(bundles := s.bundles + [bundle])
      case Remove(names, _, _, _) => recorded.(bundles := DeletedAll(s.bundles, names))
  }

  function CalledAll(cfg: Config, s: Service, calls: seq<Call>): Service {
    if calls == [] then s else Called(cfg, CalledAll(cfg, s, calls[..|calls| - 1]), calls[|calls| - 1])
  }

  /** Whatever is requested, no user gets more than the limit of requests through in an epoch, and none twice. */
  lemma {:induction false} RequestsStayWithinLimit(cfg: Config, s: Service, calls: seq<Call>)
    requires WithinLimit(cfg, s.stats)
    ensures WithinLimit(cfg, CalledAll(cfg, s, calls).stats)
    decreases |calls|
  {
    hide SharesFor, Limit, VerifyEpoch, IsZkProofValid, IsSpam;
    if calls != [] {
      var last := calls[|calls| - 1];
      var before, share := CalledAll(cfg, s, calls[..|calls| - 1]).stats, RequestShare(last.request);
      RequestsStayWithinLimit(cfg, s, calls[..|calls| - 1]);
      SpamMeansLimitReached(before, share.epoch, share.nullifier, cfg.spamThreshold);
      forall epoch, nullifier
        ensures |SharesFor(before + [share], epoch, nullifier)|
                == |SharesFor(before, epoch, nullifier)|
                   + (if share.epoch == epoch && share.nullifier == nullifier then 1 else 0)
      {
        SharesForAfterSave(before, share, epoch, nullifier);
      }
    }
  }

  lemma CallsOnlyAddRecords(cfg: Config, s: Service, calls: seq<Call>)
    ensures s.stats <= CalledAll(cfg, s, calls).stats
    decreases |calls|
  {
    hide Violated, DeletedAll, HashStored;
    if calls != [] { CallsOnlyAddRecords(cfg, s, calls[..|calls| - 1]); }
  }

  /**
     Every request that passes is recorded, also a post whose content is stored already; so the
     same request passes once and, whatever is called in between, never again.
   */
  lemma RequestPassesOnce(cfg: Config, s: Service, first: Call, between: seq<Call>, again: Call)
    requires Violated(cfg, s.stats, first.root, first.request, first.now).None? && again.request == first.request
    ensures Called(cfg, s, first).stats == s.stats + [RequestShare(first.request)]
    ensures var t := CalledAll(cfg, Called(cfg, s, first), between);
            && Violated(cfg, t.stats, again.root, again.request, again.now).Some?
            && Called(cfg, t, again) == t
  {
    hide VerifyEpoch, IsZkProofValid, IsSpam, HashStored, DeletedAll;
    var recorded := Called(cfg, s, first);
    CallsOnlyAddRecords(cfg, recorded, between);
    assert recorded.stats[|s.stats|] == RequestShare(first.request);
    assert CalledAll(cfg, recorded, between).stats[|s.stats|] == RequestShare(first.request);
  }

  /** The call stored the bundle: it passed the rules against its root. */
  ghost predicate Posted(cfg: Config, call: Call, b: Bundle) {
    && call.Create? && call.bundle == b && call.root.Some?
    && Timely(cfg, call.request.epoch, call.now) && ProvesMember(cfg, call.request.proof, call.root.value)
  }

  /** Whatever is stored was posted by a member, and no content is stored twice. */
  lemma {:induction false} StoredBundlesWerePosted(cfg: Config, calls: seq<Call>)
    requires Ideal(cfg) && Complete(cfg)
    ensures var s := CalledAll(cfg, Service([], []), calls);
            && (forall b | b in s.bundles :: exists call :: call in calls && Posted(cfg, call, b))
            && DistinctHashes(s.bundles)
    decreases |calls|
  {
    hide Ideal, Complete, Violated, Passes, Posted, DeletedAll;
    if calls != [] {
      var earlier, last := calls[..|calls| - 1], calls[|calls| - 1];
      var before, s := CalledAll(cfg, Service([], []), earlier), CalledAll(cfg, Service([], []), calls);
      StoredBundlesWerePosted(cfg, earlier);
      if last.Remove? {
        DeletedAllMembers(before.bundles, last.names);
        DeletedAllKeepsDistinct(before.bundles, last.names);
      }
      forall b | b in s.bundles ensures exists call :: call in calls && Posted(cfg, call, b) {
        if b in before.bundles {
          var call :| call in earlier && Posted(cfg, call, b);
          assert call in calls;
        } else {
          PassingCreatePosts(cfg, before.stats, last);
          assert last in calls && Posted(cfg, last, b);
        }
      }
    }
  }

  lemma PassingCreatePosts(cfg: Config, stats: seq<Share>, call: Call)
    requires Ideal(cfg) && Complete(cfg) && call.Create?
    requires Violated(cfg, stats, call.root, call.request, call.now).None?
    ensures Posted(cfg, call, call.bundle)
  {
    hide Ideal, Complete, Violated, Timely, ProvesMember;
    ViolatedExactly(cfg, stats, call.root, call.request, call.now);
  }

  /** Against the root of some leaves, a post is one of the owner of a leaf. */
  lemma PosterOwnsALeaf(cfg: Config, call: Call, b: Bundle, leaves: seq<nat>) returns (w: Witness)
    requires Posted(cfg, call, b) && cfg.tree.Injective() && call.root == Some(cfg.tree.Root(leaves))
    ensures OpenedBy(cfg, call.request.proof, w.secret)
    ensures cfg.tree.LeafAt(leaves, w.leafIndex) == cfg.rln.commitment(w.secret)
  {
    hide cfg.tree.Injective, cfg.tree.SubRoot;
    var secret :| OpenedBy(cfg, call.request.proof, secret);
    w :| Opens(cfg, call.request.proof, w) && w.secret == secret;
    assert cfg.tree.Provable(cfg.tree.Root(leaves), cfg.rln.commitment(w.secret), w.leafIndex);
    cfg.tree.ProvableExactlyTheLeaf(leaves, cfg.rln.commitment(w.secret), w.leafIndex);
  }

  ghost predicate DistinctHashes(bundles: seq<Bundle>) {
    forall i, j | 0 <= i < j < |bundles| :: bundles[i].contentHash != bundles[j].contentHash
  }

  lemma {:induction false} DeletedKeepsDistinct(bundles: seq<Bundle>, hash: string, receiver: string)
    requires DistinctHashes(bundles)
    ensures DistinctHashes(Deleted(bundles, hash, receiver))
    decreases |bundles|
  {
    if bundles != [] {
      var rest, last := bundles[..|bundles| - 1], bundles[|bundles| - 1];
      DeletedKeepsDistinct(rest, hash, receiver);
      DeletedMembers(rest, hash, receiver);
      forall i | 0 <= i < |Deleted(rest, hash, receiver)|
        ensures Deleted(rest, hash, receiver)[i].contentHash != last.contentHash
      {
        assert Deleted(rest, hash, receiver)[i] in rest;
      }
    }
  }

  lemma {:induction false} DeletedAllKeepsDistinct(bundles: seq<Bundle>, names: seq<BundleName>)
    requires DistinctHashes(bundles)
    ensures DistinctHashes(DeletedAll(bundles, names))
    decreases |names|
  {
    hide DistinctHashes;
    if names != [] {
      var rest, last := names[..|names| - 1], names[|names| - 1];
      DeletedAllKeepsDistinct(bundles, rest);
      DeletedKeepsDistinct(DeletedAll(bundles, rest), last.contentHash, last.receiver);
    }
  }

  class KeyExchangeService {
    const config: Config
    const userService: UserService
    var requestStats: seq<Share>
    var bundles: seq<Bundle>

    ghost predicate Valid()
      reads userService
    {
      userService.config == config.tree && userService.Valid()
    }

    /** The root that proofs are compared with. */
    ghost function Root(): Option<nat>
      requires Valid()
      reads userService
    {
      userService.StoredRoot()
    }

    constructor (config: Config, userService: UserService)
      requires userService.config == config.tree && userService.Valid()
      ensures Valid() && this.config == config && this.userService == userService
      ensures requestStats == [] && bundles == []
    {
      this.config, this.userService := config, userService;
      requestStats, bundles := [], [];
    }

    /** Finds exactly the bundles for a receiver, each as often as it is stored, in the order they were stored. */
    method GetBundles(receiver: string) returns (found: seq<Bundle>)
      ensures forall b :: multiset(found)[b] == if b.receiver == receiver then multiset(bundles)[b] else 0
      ensures found == ForReceiver(bundles, receiver)
    {
      ReceiversAreCounted(bundles, receiver);
      found := ForReceiver(bundles, receiver);
    }

    /** Checks a request, and records it if it violates no rule. */
    method ValidateMessageRules(request: Request, now: int) returns (violation: Option<Violation>)
      requires Valid()
      modifies this`requestStats
      ensures violation == Violated(config, old(requestStats), Root(), request, now)
      ensures Ideal(config) && Complete(config) ==>
                (violation.None? <==>
                   Passes(config, old(requestStats), Root(), request.proof, request.epoch, request.xShare, now))
      ensures requestStats == if violation.None? then old(requestStats) + [RequestShare(request)] else old(requestStats)
    {
      hide UserService.Valid, Ideal, Complete, Passes, VerifyEpoch, IsZkProofValid, SharesFor;
      if Ideal(config) && Complete(config) {
        ViolatedExactly(config, requestStats, Root(), request, now);
      }
      if !VerifyEpoch(request.epoch, now, config.allowedDelay) { return Some(BadEpoch); }
      if IsDuplicate(requestStats, RequestShare(request)) { return Some(Repeated); }
      var merkleRoot := userService.GetRoot();
      if merkleRoot.Err? { return Some(RootMissing); }
      if !IsZkProofValid(config, request.proof, merkleRoot.value) { return Some(BadProof); }
      if IsSpam(requestStats, request.epoch, request.proof.internalNullifier, config.spamThreshold) {
        return Some(Spam);
      }
      requestStats := requestStats + [RequestShare(request)];
      return None;
    }

    ghost function Stores(): Service
      reads this
    {
      Service(requestStats, bundles)
    }

    /** Stores a bundle whose request passes the rules, unless its content is stored already. */
    method CreateBundle(bundle: Bundle, request: Request, now: int) returns (ok: bool)
      requires Valid()
      modifies this`bundles, this`requestStats
      ensures Stores() == Called(config, old(Stores()), Create(bundle, request, Root(), now))
      ensures var violation := Violated(config, old(requestStats), Root(), request, now);
              ok <==> violation.None? && forall b | b in old(bundles) :: b.contentHash != bundle.contentHash
      ensures bundles == if ok then old(bundles) + [bundle] else old(bundles)
    {
      hide Violated, Ideal, Complete, Passes, UserService.Valid;
      HashStoredMeans(bundles, bundle.contentHash);
      var violation := ValidateMessageRules(request, now);
      if violation.Some? { return false; }
      if HashStored(bundles, bundle.contentHash) { return false; }
      bundles := bundles + [bundle];
      return true;
    }

    /** Deletes the named bundles one name after the other, and counts them. */
    method DeleteBundles(names: seq<BundleName>, request: Request, now: int) returns (count: Option<nat>)
      requires Valid()
      modifies this`bundles, this`requestStats
      ensures Stores() == Called(config, old(Stores()), Remove(names, request, Root(), now))
      ensures var violation := Violated(config, old(requestStats), Root(), request, now);
              && (count.Some? <==> violation.None?)
              && bundles == (if violation.None? then DeletedAll(old(bundles), names) else old(bundles))
      ensures count.Some? ==> count.value == |old(bundles)| - |bundles|
    {
      hide Violated, Ideal, Complete, Passes, UserService.Valid;
      var violation := ValidateMessageRules(request, now);
      if violation.Some? { return None; }
      var deleted: nat := 0;
      assert names[..0] == [];
      for i := 0 to |names|
        modifies this`bundles
        invariant bundles == DeletedAll(old(bundles), names[..i])
        invariant deleted == |old(bundles)| - |bundles|
      {
        DeletedIsShorter(bundles, names[i].contentHash, names[i].receiver);
        var rest := Deleted(bundles, names[i].contentHash, names[i].receiver);
        deleted := deleted + (|bundles| - |rest|);
        bundles := rest;
        assert names[..i + 1][..i] == names[..i];
      }
      assert names[..|names|] == names;
      return Some(deleted);
    }
  }

  lemma {:induction false} ReceiversAreCounted(bundles: seq<Bundle>, receiver: string)
    ensures forall b ::
              multiset(ForReceiver(bundles, receiver))[b] == if b.receiver == receiver then multiset(bundles)[b] else 0
    decreases |bundles|
  {
    if bundles != [] {
      var rest, last := bundles[..|bundles| - 1], bundles[|bundles| - 1];
      ReceiversAreCounted(rest, receiver);
      assert bundles == rest + [last];
      assert multiset(bundles) == multiset(rest) + multiset{last};
      if last.receiver == receiver {
        assert multiset(ForReceiver(bundles, receiver)) == multiset(ForReceiver(rest, receiver)) + multiset{last};
      }
    }
  }

  lemma {:induction false} DeletedIsShorter(bundles: seq<Bundle>, hash: string, receiver: string)
    ensures |Deleted(bundles, hash, receiver)| <= |bundles|
    decreases |bundles|
  {
    if bundles != [] { DeletedIsShorter(bundles[..|bundles| - 1], hash, receiver); }
  }

  /** Deleting by names removes exactly the named bundles. */
  lemma {:induction false} DeletedAllMembers(bundles: seq<Bundle>, names: seq<BundleName>)
    ensures forall b :: b in DeletedAll(bundles, names) <==>
              b in bundles && BundleName(b.contentHash, b.receiver) !in names
    decreases |names|
  {
    if names != [] {
      var rest, last := names[..|names| - 1], names[|names| - 1];
      DeletedAllMembers(bundles, rest);
      DeletedMembers(DeletedAll(bundles, rest), last.contentHash, last.receiver);
      assert names == rest + [last];
    }
  }

  /** A derivation that was started on a room and is still to finish. */
  datatype PendingKey = PendingKey(room: DirectRoom, dhPublicKey: string)

  function Recipients(rooms: seq<DirectRoom>): set<string> {
    set room | room in rooms :: room.recipientPublicKey
  }

  /** The pending keys are the given derivations, on the rooms that have their recipients. */
  ghost predicate OnRooms(pending: seq<PendingKey>, derivations: seq<Derivation>, rooms: seq<DirectRoom>) {
    && |pending| == |derivations|
    && forall i | 0 <= i < |pending| ::
         && pending[i].room in rooms
         && derivations[i] == Derivation(pending[i].room.recipientPublicKey, pending[i].dhPublicKey)
  }

  class KeyExchangeManager {
    const crypto: Cryptography
    const userPublicKey: string
    const server: KeyExchangeService

    constructor (crypto: Cryptography, userPublicKey: string, server: KeyExchangeService)
      ensures this.crypto == crypto && this.userPublicKey == userPublicKey && this.server == server
    {
      this.crypto, this.userPublicKey, this.server := crypto, userPublicKey, server;
    }

    /** Posts the bundle of a new room, with the public key of its pair. */
    method SaveKeyExchangeBundle(dhPublicKey: string, receiver: string, request: Request, now: int) returns (ok: bool)
      requires server.Valid()
      modifies server`bundles, server`requestStats
      ensures server.Stores() == Called(server.config, old(server.Stores()),
                                        Create(BundleOf(crypto, userPublicKey, receiver, dhPublicKey), request,
                                               server.Root(), now))
      ensures var bundle := BundleOf(crypto, userPublicKey, receiver, dhPublicKey);
              && (ok <==> && Violated(server.config, old(server.requestStats), server.Root(), request, now).None?
                          && forall b | b in old(server.bundles) :: b.contentHash != bundle.contentHash)
              && server.bundles == if ok then old(server.bundles) + [bundle] else old(server.bundles)
    {
      var content := Content(dhPublicKey, userPublicKey);
      var contentHash := crypto.contentHash(content.dhPublicKey, content.senderPublicKey);
      ok := server.CreateBundle(Bundle(content, contentHash, receiver), request, now);
    }

    method FindRoom(rooms: seq<DirectRoom>, recipient: string) returns (room: Option<DirectRoom>)
      ensures room.Some? <==> recipient in Recipients(rooms)
      ensures room.Some? ==> room.value in rooms && room.value.recipientPublicKey == recipient
    {
      for i := 0 to |rooms|
        invariant recipient !in Recipients(rooms[..i])
      {
        if rooms[i].recipientPublicKey == recipient {
          return Some(rooms[i]);
        }
        assert Recipients(rooms[..i + 1]) == Recipients(rooms[..i]) + {rooms[i].recipientPublicKey};
      }
      assert rooms[..|rooms|] == rooms;
      return None;
    }

    /** Handles the fetched bundles in order, without waiting for the derivations it starts. */
    method HandleBundles(rooms: seq<DirectRoom>, fetched: seq<Bundle>)
      returns (pending: seq<PendingKey>, toDelete: seq<BundleName>)
      ensures OnRooms(pending, DerivationsOf(Recipients(rooms), fetched), rooms)
      ensures toDelete == Named(MarksOf(crypto, Recipients(rooms), fetched), userPublicKey)
    {
      pending, toDelete := [], [];
      assert fetched[..0] == [];
      for i := 0 to |fetched|
        invariant OnRooms(pending, DerivationsOf(Recipients(rooms), fetched[..i]), rooms)
        invariant toDelete == Named(MarksOf(crypto, Recipients(rooms), fetched[..i]), userPublicKey)
      {
        var content := fetched[i].content;
        var contentHash := crypto.contentHash(content.dhPublicKey, content.senderPublicKey);
        var room := FindRoom(rooms, content.senderPublicKey);
        assert fetched[..i + 1][..i] == fetched[..i];
        if room.Some? {
          pending := pending + [PendingKey(room.value, content.dhPublicKey)];
          toDelete := toDelete + [BundleName(contentHash, userPublicKey)];
        }
      }
      assert fetched[..|fetched|] == fetched;
    }

    /**
     One run over the rooms that had no key when it began. It starts a derivation for every
     bundle from the recipient of such a room, without waiting for it, and asks the server to
     delete just those bundles.
     */
    method RunKeyExchangeProtocol(rooms: seq<DirectRoom>, available: bool, request: Request, now: int)
      returns (pending: seq<PendingKey>)
      requires server.Valid()
      modifies server`bundles, server`requestStats
      ensures !available ==> pending == [] && server.Stores() == old(server.Stores())
      ensures available ==>
                var fetched := ForReceiver(old(server.bundles), userPublicKey);
                var toDelete := Named(MarksOf(crypto, Recipients(rooms), fetched), userPublicKey);
                && OnRooms(pending, DerivationsOf(Recipients(rooms), fetched), rooms)
                && server.Stores()
                   == if toDelete == [] then old(server.Stores())
                      else Called(server.config, old(server.Stores()), Remove(toDelete, request, server.Root(), now))
    {
      hide Violated, Called, OnRooms, Recipients, DerivationsOf, MarksOf, Named, ForReceiver, Deleted;
      pending := [];
      if !available { return; }
      var fetched := server.GetBundles(userPublicKey);
      var toDelete;
      pending, toDelete := HandleBundles(rooms, fetched);
      if |toDelete| > 0 {
        var count := server.DeleteBundles(toDelete, request, now);
      }
    }
  }

  // ----- the profile's rooms are the client's rooms -----

  function DhRoomOf(direct: Direct): DhRoom {
    DhRoom(direct.dhPrivateKey, direct.room.symmetricKey)
  }

  function RoomsByRecipient(rooms: seq<Direct>): (r: map<string, DhRoom>)
    ensures forall v :: v in r <==> HasRecipient(rooms, v)
  {
    if rooms == [] then map[]
    else
      var last := rooms[|rooms| - 1];
      var r := RoomsByRecipient(rooms[..|rooms| - 1])[last.recipientPublicKey := DhRoomOf(last)];
      assert forall v | HasRecipient(rooms[..|rooms| - 1], v) :: HasRecipient(rooms, v);
      r
  }

  lemma OneMoreRoom(rooms: seq<Direct>, last: Direct)
    ensures RoomsByRecipient(rooms + [last]) == RoomsByRecipient(rooms)[last.recipientPublicKey := DhRoomOf(last)]
  {
    assert (rooms + [last])[..|rooms|] == rooms;
  }

  /** Adding a direct room to a profile adds it, by its recipient, exactly when the client has none for it yet. */
  lemma AddDirectIsCreateRoom(crypto: Cryptography, p: Profile, direct: Direct)
    ensures var q := Apply(crypto, p, AddDirect(direct));
            if direct.recipientPublicKey in RoomsByRecipient(p.directRooms) then q == None
            else q.Some? && RoomsByRecipient(q.value.directRooms)
                            == RoomsByRecipient(p.directRooms)[direct.recipientPublicKey := DhRoomOf(direct)]
  {
    OneMoreRoom(p.directRooms, direct);
  }

  /** Writing a derived key through a room's alias changes the key of its recipient, and of no other. */
  lemma {:induction false} DeriveKeyIsFinishDerivation(crypto: Cryptography, rooms: seq<Direct>, position: nat,
                                                       dhPublicKey: string)
    requires position < |rooms|
    requires forall i, j | 0 <= i < j < |rooms| :: rooms[i].recipientPublicKey != rooms[j].recipientPublicKey
    ensures var room := rooms[position];
            RoomsByRecipient(rooms[position := Derived(crypto, room, dhPublicKey)])
            == RoomsByRecipient(rooms)[room.recipientPublicKey :=
                 DhRoom(room.dhPrivateKey, crypto.deriveShared(room.dhPrivateKey, dhPublicKey))]
    decreases |rooms|
  {
    hide RoomsByRecipient, HasRecipient;
    var room := rooms[position];
    var derived := Derived(crypto, room, dhPublicKey);
    var rest, last := rooms[..|rooms| - 1], rooms[|rooms| - 1];
    assert rooms == rest + [last];
    OneMoreRoom(rest, last);
    if position == |rest| {
      OneMoreRoom(rest, derived);
      assert rooms[position := derived] == rest + [derived];
    } else {
      DeriveKeyIsFinishDerivation(crypto, rest, position, dhPublicKey);
      OneMoreRoom(rest[position := derived], last);
      assert rooms[position := derived] == rest[position := derived] + [last];
      assert last.recipientPublicKey != room.recipientPublicKey;
    }
  }

  /** The rooms an exchange runs over are the keyless ones of the state machine. */
  lemma AvailableRoomsAreKeyless(manager: ProfileManager, rooms: seq<DirectRoom>)
    requires manager.Valid()
    requires forall room :: room in rooms <==> room in manager.directRooms && room.symmetricKey == ""
    ensures Recipients(rooms) == Keyless(RoomsByRecipient(manager.InMemory().directRooms))
  {
    hide RoomsByRecipient, HasRecipient;
    var directs := manager.InMemory().directRooms;
    forall i | 0 <= i < |directs|
      ensures directs[i].recipientPublicKey in RoomsByRecipient(directs)
      ensures RoomsByRecipient(directs)[directs[i].recipientPublicKey] == DhRoomOf(directs[i])
    {
      RoomIsFiled(directs, i);
    }
    forall v | v in RoomsByRecipient(directs)
      ensures exists i :: 0 <= i < |directs| && directs[i].recipientPublicKey == v
    {
      FiledRecipient(directs, v);
    }
    forall v | v in Recipients(rooms) ensures v in Keyless(RoomsByRecipient(directs)) {
      var room :| room in rooms && room.recipientPublicKey == v;
      var i :| 0 <= i < |manager.directRooms| && manager.directRooms[i] == room;
      assert directs[i].recipientPublicKey == v;
    }
    forall v | v in Keyless(RoomsByRecipient(directs)) ensures v in Recipients(rooms) {
      var i :| 0 <= i < |directs| && directs[i].recipientPublicKey == v;
      assert manager.directRooms[i] in rooms;
    }
  }

  lemma FiledRecipient(rooms: seq<Direct>, v: string)
    requires v in RoomsByRecipient(rooms)
    ensures exists i :: 0 <= i < |rooms| && rooms[i].recipientPublicKey == v
  {
    assert HasRecipient(rooms, v);
  }

  lemma {:induction false} RoomIsFiled(rooms: seq<Direct>, i: nat)
    requires i < |rooms|
    requires forall j, k | 0 <= j < k < |rooms| :: rooms[j].recipientPublicKey != rooms[k].recipientPublicKey
    ensures rooms[i].recipientPublicKey in RoomsByRecipient(rooms)
    ensures RoomsByRecipient(rooms)[rooms[i].recipientPublicKey] == DhRoomOf(rooms[i])
    decreases |rooms|
  {
    hide HasRecipient;
    if i < |rooms| - 1 { RoomIsFiled(rooms[..|rooms| - 1], i); }
  }
}
