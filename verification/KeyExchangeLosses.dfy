/**
 Exchanges that are lost. A run deletes a bundle without waiting for the derivation that it
 started, and a bundle is posted once. So a client that stops in between, or a post that does
 not reach the server, ends an exchange for good.
 */
module KeyExchangeLosses {
  import opened Profiles
  import opened KeyExchange

  // ----- no trace -----

  /** No trace of an exchange from u to v: no bundle, no derivation and no key on v's side, and none to come. */
  ghost predicate Untraceable(s: System, u: string, v: string) {
    && (forall b | b in s.bundles :: !(b.content.senderPublicKey == u && b.receiver == v))
    && (forall w, b | w in s.clients && b in s.clients[w].posting ::
          !(b.content.senderPublicKey == u && b.receiver == v))
    && (v in s.clients ==>
          && (forall run, b | run in s.clients[v].runs && b in run.bundles :: b.content.senderPublicKey != u)
          && (forall d | d in s.clients[v].deriving :: d.recipient != u)
          && (u in s.clients[v].rooms ==> s.clients[v].rooms[u].symmetricKey == ""))
  }

  lemma StepKeepsUntraceable(crypto: Cryptography, s: System, a: Action, u: string, v: string)
    requires Untraceable(s, u, v) && !(a.CreateRoom? && a.user == u && a.recipient == v)
    ensures Untraceable(Do(crypto, s, a), u, v)
  {
    hide Untraceable, Do;
    if a.user in s.clients {
      if a.CreateRoom? || a.Post? || a.FinishDerivation? {
        RoomStepKeepsUntraceable(crypto, s, a, u, v);
      } else {
        RunStepKeepsUntraceable(crypto, s, a, u, v);
      }
    } else {
      UnknownUserChangesNothing(crypto, s, a);
    }
  }

  lemma RoomStepKeepsUntraceable(crypto: Cryptography, s: System, a: Action, u: string, v: string)
    requires Untraceable(s, u, v) && a.user in s.clients && (a.CreateRoom? || a.Post? || a.FinishDerivation?)
    requires !(a.CreateRoom? && a.user == u && a.recipient == v)
    ensures Untraceable(Do(crypto, s, a), u, v)
  {
    hide Without, HashStored;
    var c := s.clients[a.user];
    if a.Post? && a.k < |c.posting| { WithoutMembers(c.posting, a.k); }
    if a.FinishDerivation? && a.k < |c.deriving| { WithoutMembers(c.deriving, a.k); }
  }

  lemma RunStepKeepsUntraceable(crypto: Cryptography, s: System, a: Action, u: string, v: string)
    requires Untraceable(s, u, v) && a.user in s.clients && !(a.CreateRoom? || a.Post? || a.FinishDerivation?)
    ensures Untraceable(Do(crypto, s, a), u, v)
  {
    hide Untraceable, Do;
    if a.Handle? || a.Delete? {
      BundleStepKeepsUntraceable(crypto, s, a, u, v);
    } else {
      ListStepKeepsUntraceable(crypto, s, a, u, v);
    }
  }

  lemma ListStepKeepsUntraceable(crypto: Cryptography, s: System, a: Action, u: string, v: string)
    requires Untraceable(s, u, v) && a.user in s.clients && (a.StartRun? || a.Fetch? || a.EndRun? || IsFailure(a))
    ensures Untraceable(Do(crypto, s, a), u, v)
  {
    hide Without, ForReceiver;
    var c := s.clients[a.user];
    ReceiversAreMembers(s.bundles, a.user);
    if a.EndRun? && a.k < |c.runs| { WithoutMembers(c.runs, a.k); }
    if a.FailDerivation? && a.k < |c.deriving| { WithoutMembers(c.deriving, a.k); }
  }

  lemma BundleStepKeepsUntraceable(crypto: Cryptography, s: System, a: Action, u: string, v: string)
    requires Untraceable(s, u, v) && a.user in s.clients && (a.Handle? || a.Delete?)
    ensures Untraceable(Do(crypto, s, a), u, v)
  {
    hide Deleted;
    var c := s.clients[a.user];
    if a.k < |c.runs| {
      if c.runs[a.k].bundles != [] { assert c.runs[a.k].bundles[0] in c.runs[a.k].bundles; }
      if c.runs[a.k].marked != [] { DeletedMembers(s.bundles, c.runs[a.k].marked[0], a.user); }
    }
  }

  /** No later step brings an exchange back whose room is there and of which no trace is left. */
  lemma {:induction false} UntraceableForGood(crypto: Cryptography, s: System, actions: seq<Action>, u: string,
                                              v: string)
    requires crypto.DiffieHellman() && Sound(crypto, s)
    requires u in s.clients && v in s.clients[u].rooms && Untraceable(s, u, v)
    ensures Untraceable(DoAll(crypto, s, actions), u, v)
    decreases |actions|
  {
    hide Sound, Do, Untraceable, crypto.DiffieHellman;
    if actions != [] {
      var before, a := DoAll(crypto, s, actions[..|actions| - 1]), actions[|actions| - 1];
      UntraceableForGood(crypto, s, actions[..|actions| - 1], u, v);
      RunKeepsSound(crypto, s, actions[..|actions| - 1]);
      if a.CreateRoom? && a.user == u && a.recipient == v {
        ExistingRoomIsKept(crypto, before, a);
      } else {
        StepKeepsUntraceable(crypto, before, a, u, v);
      }
    }
  }

  lemma ExistingRoomIsKept(crypto: Cryptography, s: System, a: Action)
    requires a.CreateRoom? && a.user in s.clients && a.recipient in s.clients[a.user].rooms
    ensures Do(crypto, s, a) == s
  {
  }

  // ----- each bundle is posted once -----

  /** What a client has still to post is its own, for different peers, and was not accepted before. */
  ghost predicate PostsOnce(s: System, w: string, c: Client) {
    && (forall b | b in c.posting ::
          b.content.senderPublicKey == w && b.receiver in c.rooms && !Accepted(s.accepted, w, b.receiver))
    && forall i, j | 0 <= i < j < |c.posting| :: c.posting[i].receiver != c.posting[j].receiver
  }

  ghost predicate AllPostOnce(s: System) {
    forall w | w in s.clients :: PostsOnce(s, w, s.clients[w])
  }

  lemma WithoutKeepsDistinct(s: seq<Bundle>, k: nat)
    requires k < |s| && forall i, j | 0 <= i < j < |s| :: s[i].receiver != s[j].receiver
    ensures forall i, j | 0 <= i < j < |Without(s, k)| :: Without(s, k)[i].receiver != Without(s, k)[j].receiver
    ensures forall b | b in Without(s, k) :: b in s && b.receiver != s[k].receiver
  {
    assert forall i | 0 <= i < |Without(s, k)| :: Without(s, k)[i] == s[if i < k then i else i + 1];
  }

  /** A step that accepts nothing keeps it for a client whose rooms grow and whose posts are some of its old ones. */
  lemma PostsStayOnce(s: System, t: System, w: string, c: Client, d: Client)
    requires PostsOnce(s, w, c) && t.accepted == s.accepted && c.rooms.Keys <= d.rooms.Keys
    requires d.posting == c.posting || d.posting == []
    ensures PostsOnce(t, w, d)
  {
    hide Accepted;
  }

  lemma CreateRoomKeepsPostsOnce(crypto: Cryptography, s: System, a: Action)
    requires Sound(crypto, s) && AllPostOnce(s)
    requires a.CreateRoom? && a.user in s.clients && a.recipient !in s.clients[a.user].rooms
    ensures AllPostOnce(Do(crypto, s, a))
  {
    hide PostsOnce, Sound, Accepted;
    NewRoomsBundleIsNew(crypto, s, a.user, a.recipient);
    var t, b := Do(crypto, s, a), BundleFor(crypto, a.user, a.recipient, a.dhPrivateKey);
    OneMoreToPost(s, a.user, s.clients[a.user], t.clients[a.user], b);
    forall w | w in t.clients ensures PostsOnce(t, w, t.clients[w]) {
      PostsStayOnce(s, t, w, t.clients[w], t.clients[w]);
    }
  }

  lemma NewRoomsBundleIsNew(crypto: Cryptography, s: System, u: string, v: string)
    requires Sound(crypto, s) && u in s.clients && v !in s.clients[u].rooms
    ensures !Accepted(s.accepted, u, v)
  {
    hide ClientOk;
    forall b | b in s.accepted && b.content.senderPublicKey == u ensures b.receiver != v {
      assert Genuine(crypto, s, b);
    }
  }

  lemma OneMoreToPost(s: System, w: string, c: Client, d: Client, b: Bundle)
    requires PostsOnce(s, w, c) && d.posting == c.posting + [b] && d.rooms.Keys == c.rooms.Keys + {b.receiver}
    requires b.content.senderPublicKey == w && b.receiver !in c.rooms && !Accepted(s.accepted, w, b.receiver)
    ensures PostsOnce(s, w, d)
  {
    hide Accepted;
    forall i | 0 <= i < |c.posting| ensures c.posting[i].receiver != b.receiver {
      assert c.posting[i] in c.posting;
    }
  }

  lemma PostKeepsPostsOnce(crypto: Cryptography, s: System, a: Action)
    requires AllPostOnce(s) && a.Post? && a.user in s.clients && a.k < |s.clients[a.user].posting|
    ensures AllPostOnce(Do(crypto, s, a))
  {
    var c, t := s.clients[a.user], Do(crypto, s, a);
    assert PostsOnce(s, a.user, c);
    WithoutKeepsDistinct(c.posting, a.k);
    assert c.posting[a.k] in c.posting;
    forall w, r | Accepted(t.accepted, w, r) && !Accepted(s.accepted, w, r)
      ensures w == a.user && r == c.posting[a.k].receiver
    {
      var b :| b in t.accepted && b.content.senderPublicKey == w && b.receiver == r;
      assert b !in s.accepted;
    }
  }

  lemma StepKeepsPostsOnce(crypto: Cryptography, s: System, a: Action)
    requires crypto.DiffieHellman() && Sound(crypto, s) && AllPostOnce(s)
    ensures AllPostOnce(Do(crypto, s, a))
  {
    hide Sound, PostsOnce, Later, crypto.DiffieHellman;
    var t := Do(crypto, s, a);
    if t != s {
      if a.CreateRoom? {
        CreateRoomKeepsPostsOnce(crypto, s, a);
      } else if a.Post? {
        PostKeepsPostsOnce(crypto, s, a);
      } else {
        StepKeepsSound(crypto, s, a);
        RoomsStay(s, t, a.user);
        forall w | w in t.clients ensures PostsOnce(t, w, t.clients[w]) {
          PostsStayOnce(s, t, w, s.clients[w], t.clients[w]);
        }
      }
    }
  }

  lemma RoomsStay(s: System, t: System, w: string)
    requires Later(s, t) && w in s.clients
    ensures w in t.clients && s.clients[w].rooms.Keys <= t.clients[w].rooms.Keys
  {
    assert Grows(s.clients[w], t.clients[w]);
  }

  lemma {:induction false} RunKeepsPostsOnce(crypto: Cryptography, s: System, actions: seq<Action>)
    requires crypto.DiffieHellman() && Sound(crypto, s) && AllPostOnce(s)
    ensures AllPostOnce(DoAll(crypto, s, actions))
    decreases |actions|
  {
    hide Sound, AllPostOnce, Do, crypto.DiffieHellman;
    if actions != [] {
      RunKeepsPostsOnce(crypto, s, actions[..|actions| - 1]);
      RunKeepsSound(crypto, s, actions[..|actions| - 1]);
      StepKeepsPostsOnce(crypto, DoAll(crypto, s, actions[..|actions| - 1]), actions[|actions| - 1]);
    }
  }

  /** What holds in every reachable state. */
  ghost predicate Reachable(crypto: Cryptography, s: System) {
    Sound(crypto, s) && AllSourced(s) && AllPostOnce(s)
  }

  lemma RunIsReachable(crypto: Cryptography, start: System, actions: seq<Action>)
    requires crypto.DiffieHellman() && Initial(start)
    ensures Reachable(crypto, DoAll(crypto, start, actions))
  {
    hide Sound, AllSourced, DoAll, crypto.DiffieHellman;
    InitiallySound(crypto, start);
    NothingIsSourced(start);
    RunKeepsSound(crypto, start, actions);
    RunKeepsSourced(crypto, start, actions);
    RunKeepsPostsOnce(crypto, start, actions);
  }

  // ----- posts that do not reach the server -----

  ghost predicate Pending(s: System, u: string, v: string) {
    u in s.clients && exists b :: b in s.clients[u].posting && b.receiver == v
  }

  lemma NoTraceOfOthersPosts(s: System, u: string, v: string)
    requires AllPostOnce(s) && !Pending(s, u, v)
    ensures forall w, b | w in s.clients && b in s.clients[w].posting ::
              !(b.content.senderPublicKey == u && b.receiver == v)
  {
    forall w, b | w in s.clients && b in s.clients[w].posting
      ensures !(b.content.senderPublicKey == u && b.receiver == v)
    {
      assert PostsOnce(s, w, s.clients[w]);
    }
  }

  /** A bundle that was never accepted and is not waiting to be posted has left no trace. */
  lemma NeverAcceptedLeavesNoTrace(s: System, u: string, v: string)
    requires AllSourced(s) && AllPostOnce(s) && !Pending(s, u, v) && !Accepted(s.accepted, u, v)
    ensures Untraceable(s, u, v)
  {
    hide Accepted;
    NoTraceOfOthersPosts(s, u, v);
    forall b | b in s.bundles ensures !(b.content.senderPublicKey == u && b.receiver == v) {
      AcceptedBundle(s.accepted, b);
    }
    if v in s.clients { assert Sourced(s, v, s.clients[v]); }
  }

  /**
     In every reachable state: once u has a room for v, no bundle of it was accepted and none
     waits to be posted, v's room for u stays without a key, whatever anybody does.
   */
  lemma NeverAcceptedNeverAKey(crypto: Cryptography, start: System, actions: seq<Action>, later: seq<Action>,
                               u: string, v: string)
    requires crypto.DiffieHellman() && Initial(start)
    requires var s := DoAll(crypto, start, actions);
             u in s.clients && v in s.clients[u].rooms && !Pending(s, u, v) && !Accepted(s.accepted, u, v)
    ensures var t := DoAll(crypto, DoAll(crypto, start, actions), later);
            v in t.clients && u in t.clients[v].rooms ==> t.clients[v].rooms[u].symmetricKey == ""
  {
    hide Sound, AllSourced, AllPostOnce, DoAll, Accepted, Pending, Initial, crypto.DiffieHellman;
    RunIsReachable(crypto, start, actions);
    NeverAcceptedLeavesNoTrace(DoAll(crypto, start, actions), u, v);
    UntraceableForGood(crypto, DoAll(crypto, start, actions), later, u, v);
  }

  lemma DoAllOneMore(crypto: Cryptography, s: System, actions: seq<Action>, a: Action)
    ensures DoAll(crypto, s, actions + [a]) == Do(crypto, DoAll(crypto, s, actions), a)
  {
    assert (actions + [a])[..|actions|] == actions;
  }

  /** So an exchange ends, in every reachable state, with a post that the server turns down. */
  lemma RejectedPostEndsTheExchange(crypto: Cryptography, start: System, actions: seq<Action>, u: string, k: nat,
                                    later: seq<Action>)
    requires crypto.DiffieHellman() && Initial(start)
    requires var s := DoAll(crypto, start, actions);
             u in s.clients && k < |s.clients[u].posting|
    ensures
      var s := DoAll(crypto, start, actions);
      var v, t := s.clients[u].posting[k].receiver, DoAll(crypto, Do(crypto, s, Post(u, k, false)), later);
      v in t.clients && u in t.clients[v].rooms ==> t.clients[v].rooms[u].symmetricKey == ""
  {
    hide Sound, AllSourced, DoAll, Accepted, Initial, crypto.DiffieHellman;
    RunIsReachable(crypto, start, actions);
    var s := DoAll(crypto, start, actions);
    var c := s.clients[u];
    assert PostsOnce(s, u, c) && c.posting[k] in c.posting;
    WithoutKeepsDistinct(c.posting, k);
    DoAllOneMore(crypto, start, actions, Post(u, k, false));
    NeverAcceptedNeverAKey(crypto, start, actions + [Post(u, k, false)], later, u, c.posting[k].receiver);
  }

  /** And with a restart of the sender before its post. */
  lemma RestartBeforePostEndsTheExchange(crypto: Cryptography, start: System, actions: seq<Action>, u: string,
                                         v: string,
                                         later: seq<Action>)
    requires crypto.DiffieHellman() && Initial(start) && Pending(DoAll(crypto, start, actions), u, v)
    ensures var t := DoAll(crypto, Do(crypto, DoAll(crypto, start, actions), Restart(u)), later);
            v in t.clients && u in t.clients[v].rooms ==> t.clients[v].rooms[u].symmetricKey == ""
  {
    hide Sound, AllSourced, DoAll, Accepted, Initial, crypto.DiffieHellman;
    RunIsReachable(crypto, start, actions);
    var s := DoAll(crypto, start, actions);
    assert PostsOnce(s, u, s.clients[u]);
    DoAllOneMore(crypto, start, actions, Restart(u));
    NeverAcceptedNeverAKey(crypto, start, actions + [Restart(u)], later, u, v);
  }

  // ----- restarts of the receiver -----

  lemma RestartDropsTheWork(crypto: Cryptography, s: System, v: string)
    requires v in s.clients
    ensures Do(crypto, s, Restart(v)) == s.(clients := s.clients[v := Client(s.clients[v].rooms, [], [], [])])
  {
  }

  /**
     After a restart of v, in every reachable state, an exchange gives v the key for u exactly
     when v's profile has it or a bundle from u for v is stored. If neither holds and none waits
     to be posted, v never gets it: the exchange is lost, its bundle having been deleted before
     the key was stored.
   */
  lemma RestartLosesTheExchangeExactlyWhen(crypto: Cryptography, start: System, actions: seq<Action>,
                                           later: seq<Action>,
                                           u: string, v: string)
    requires crypto.DiffieHellman() && Initial(start)
    requires var s := DoAll(crypto, start, actions);
             v in s.clients && u in s.clients[v].rooms && u in s.clients && v in s.clients[u].rooms
    ensures
      var s := DoAll(crypto, start, actions);
      var r := Do(crypto, s, Restart(v));
      var t, x := DoAll(crypto, r, later), Exchange(crypto, r, v);
      var kept := s.clients[v].rooms[u].symmetricKey != "" || StoredFor(s, u, v);
      && v in x.clients && u in x.clients[v].rooms && v in t.clients && u in t.clients[v].rooms
      && (x.clients[v].rooms[u].symmetricKey != "" <==> kept)
      && (!kept && !Pending(r, u, v) ==> t.clients[v].rooms[u].symmetricKey == "")
  {
    hide Sound, AllSourced, DoAll, Do, Exchange, Accepted, Initial, AllPostOnce, Later, Untraceable,
         crypto.DiffieHellman;
    RunIsReachable(crypto, start, actions);
    var s := DoAll(crypto, start, actions);
    var r := Do(crypto, s, Restart(v));
    RestartDropsTheWork(crypto, s, v);
    StepKeepsSound(crypto, s, Restart(v));
    StepKeepsPostsOnce(crypto, s, Restart(v));
    ExchangeYieldsKeyExactlyWhen(crypto, r, u, v);
    RunKeepsSound(crypto, r, later);
    RoomsStay(r, DoAll(crypto, r, later), v);
    if s.clients[v].rooms[u].symmetricKey == "" && !StoredFor(s, u, v) && !Pending(r, u, v) {
      IdleClientHasNoTrace(r, u, v);
      UntraceableForGood(crypto, r, later, u, v);
      UntraceableHasNoKey(DoAll(crypto, r, later), u, v);
    }
  }

  /**
     After a derivation threw, an exchange gives its room the key exactly when the room has it,
     another derivation for it is pending, or a bundle for it is stored.
   */
  lemma FailedDerivationLosesTheExchangeExactlyWhen(crypto: Cryptography, s: System, v: string, k: nat)
    requires crypto.DiffieHellman() && Sound(crypto, s) && v in s.clients && k < |s.clients[v].deriving|
    requires s.clients[v].deriving[k].recipient in s.clients[v].rooms
    ensures
      var c, u := s.clients[v], s.clients[v].deriving[k].recipient;
      var x := Exchange(crypto, Do(crypto, s, FailDerivation(v, k)), v);
      && v in x.clients && u in x.clients[v].rooms
      && (x.clients[v].rooms[u].symmetricKey != "" <==>
            || c.rooms[u].symmetricKey != ""
            || (exists i :: 0 <= i < |c.deriving| && i != k && c.deriving[i].recipient == u)
            || StoredFor(s, u, v))
  {
    hide Sound, Exchange, Later, crypto.DiffieHellman;
    var c, u, t := s.clients[v], s.clients[v].deriving[k].recipient, Do(crypto, s, FailDerivation(v, k));
    StepKeepsSound(crypto, s, FailDerivation(v, k));
    ExchangeYieldsKeyExactlyWhen(crypto, t, u, v);
    WithoutAt(c.deriving, k);
    assert t.clients[v] == c.(deriving := Without(c.deriving, k)) && t.bundles == s.bundles;
    if i :| 0 <= i < |c.deriving| && i != k && c.deriving[i].recipient == u {
      assert Without(c.deriving, k)[if i < k then i else i - 1] == c.deriving[i];
    }
    if d :| d in Without(c.deriving, k) && d.recipient == u {
      var j :| 0 <= j < |Without(c.deriving, k)| && Without(c.deriving, k)[j] == d;
      assert c.deriving[if j < k then j else j + 1] == d;
    }
  }

  lemma WithoutAt<T>(s: seq<T>, k: nat)
    requires k < |s|
    ensures |Without(s, k)| == |s| - 1
    ensures forall i | 0 <= i < |s| - 1 :: Without(s, k)[i] == s[if i < k then i else i + 1]
  {
  }

  // ----- a whole exchange from the beginning -----

  /** A new room waits to be posted, with its own public key, for its recipient; an existing one does not. */
  lemma NewRoomWaitsToBePosted(crypto: Cryptography, s: System, u: string, v: string, dhPrivateKey: string)
    requires u in s.clients
    ensures
      var c, t := s.clients[u], Do(crypto, s, CreateRoom(u, v, dhPrivateKey));
      if v in c.rooms then t == s
      else
        var content := Content(crypto.publicOf(dhPrivateKey), u);
        t == s.(clients := s.clients[u := c.(
               rooms := c.rooms[v := DhRoom(dhPrivateKey, "")],
               posting := c.posting + [Bundle(content, crypto.contentHash(content.dhPublicKey, u), v)])])
  {
  }

  /** Both sides create their rooms, and their bundles are accepted. */
  function BothPosted(u: string, v: string, a: string, b: string): seq<Action> {
    [CreateRoom(u, v, a), CreateRoom(v, u, b), Post(u, 0, true), Post(v, 0, true)]
  }

  lemma NoActions(crypto: Cryptography, s: System)
    ensures DoAll(crypto, s, []) == s
  {
  }

  lemma BundlesDiffer(crypto: Cryptography, u: string, v: string, a: string, b: string)
    requires crypto.CollisionFree() && u != v
    ensures BundleFor(crypto, u, v, a).contentHash != BundleFor(crypto, v, u, b).contentHash
  {
  }

  lemma BothPostedState(crypto: Cryptography, start: System, u: string, v: string, a: string, b: string)
    requires Initial(start) && crypto.CollisionFree() && u in start.clients && v in start.clients && u != v
    ensures
      var toV, toU := BundleFor(crypto, u, v, a), BundleFor(crypto, v, u, b);
      DoAll(crypto, start, BothPosted(u, v, a, b))
      == System(start.clients[u := Client(map[v := DhRoom(a, "")], [], [], [])]
                             [v := Client(map[u := DhRoom(b, "")], [], [], [])],
                [toV, toU], {toV, toU})
  {
    hide Do, DoAll, BundleFor, crypto.CollisionFree;
    BundlesDiffer(crypto, u, v, a, b);
    NoActions(crypto, start);
    var actions := BothPosted(u, v, a, b);
    var toV, toU := BundleFor(crypto, u, v, a), BundleFor(crypto, v, u, b);
    var s1 := start.(clients := start.clients[u := Client(map[v := DhRoom(a, "")], [toV], [], [])]);
    var s2 := s1.(clients := s1.clients[v := Client(map[u := DhRoom(b, "")], [toU], [], [])]);
    var s3 := System(s2.clients[u := Client(map[v := DhRoom(a, "")], [], [], [])], [toV], {toV});
    var s4 := System(s3.clients[v := Client(map[u := DhRoom(b, "")], [], [], [])], [toV, toU], {toV, toU});
    CreatesTheFirstRoom(crypto, start, u, v, a);
    CreatesTheFirstRoom(crypto, s1, v, u, b);
    PostTheOnlyOne(crypto, s2, u);
    PostTheOnlyOne(crypto, s3, v);
    assert actions[..3][..2][..1][..0] == [];
    assert actions[..3] + [actions[3]] == actions && actions[..2] + [actions[2]] == actions[..3]
           && actions[..1] + [actions[1]] == actions[..2] && actions[..0] + [actions[0]] == actions[..1];
    DoAllOneMore(crypto, start, actions[..0], actions[0]);
    DoAllOneMore(crypto, start, actions[..1], actions[1]);
    DoAllOneMore(crypto, start, actions[..2], actions[2]);
    DoAllOneMore(crypto, start, actions[..3], actions[3]);
    assert DoAll(crypto, start, actions[..1]) == s1;
    assert DoAll(crypto, start, actions[..2]) == s2;
    assert DoAll(crypto, start, actions[..3]) == s3;
    assert s4.clients == start.clients[u := Client(map[v := DhRoom(a, "")], [], [], [])]
                                      [v := Client(map[u := DhRoom(b, "")], [], [], [])];
  }

  lemma CreatesTheFirstRoom(crypto: Cryptography, s: System, u: string, v: string, a: string)
    requires u in s.clients && s.clients[u] == Client(map[], [], [], [])
    ensures Do(crypto, s, CreateRoom(u, v, a))
            == s.(clients := s.clients[u := Client(map[v := DhRoom(a, "")], [BundleFor(crypto, u, v, a)], [], [])])
  {
    NewRoomWaitsToBePosted(crypto, s, u, v, a);
    var b := BundleFor(crypto, u, v, a);
    assert s.clients[u].posting + [b] == [b];
    assert s.clients[u].rooms[v := DhRoom(a, "")] == map[v := DhRoom(a, "")];
  }

  lemma PostTheOnlyOne(crypto: Cryptography, s: System, u: string)
    requires u in s.clients && |s.clients[u].posting| == 1
    requires forall b | b in s.bundles :: b.contentHash != s.clients[u].posting[0].contentHash
    ensures Do(crypto, s, Post(u, 0, true))
            == System(s.clients[u := s.clients[u].(posting := [])], s.bundles + [s.clients[u].posting[0]],
                      s.accepted + {s.clients[u].posting[0]})
  {
    HashStoredMeans(s.bundles, s.clients[u].posting[0].contentHash);
    PostIsStoredExactlyWhenNew(crypto, s, u, 0, true);
    assert Without(s.clients[u].posting, 0) == [];
  }

  /**
     Two users create rooms for each other, their bundles are accepted, and each runs one
     exchange: then both hold the secret of the two private keys.
   */
  lemma NewRoomsGetOneKey(crypto: Cryptography, start: System, u: string, v: string, a: string, b: string)
    requires crypto.DiffieHellman() && crypto.CollisionFree() && Initial(start)
    requires u in start.clients && v in start.clients && u != v
    ensures
      var s := DoAll(crypto, start, BothPosted(u, v, a, b));
      && u in s.clients && v in Exchange(crypto, s, u).clients
      && var t := Exchange(crypto, Exchange(crypto, s, u), v);
         && u in t.clients && v in t.clients[u].rooms && v in t.clients && u in t.clients[v].rooms
         && t.clients[u].rooms[v] == DhRoom(a, crypto.deriveShared(a, crypto.publicOf(b)))
         && t.clients[v].rooms[u] == DhRoom(b, crypto.deriveShared(a, crypto.publicOf(b)))
  {
    hide Sound, Later, Exchange, DoAll, Initial, KeyOk;
    var s := DoAll(crypto, start, BothPosted(u, v, a, b));
    BothPostedState(crypto, start, u, v, a, b);
    InitiallySound(crypto, start);
    RunKeepsSound(crypto, start, BothPosted(u, v, a, b));
    var toV, toU := BundleFor(crypto, u, v, a), BundleFor(crypto, v, u, b);
    assert toV in s.bundles && toU in s.bundles;
    TwoExchangesShareAKey(crypto, s, toU, toV);
    var r := Exchange(crypto, s, u);
    var t := Exchange(crypto, r, v);
    ExchangeKeepsSound(crypto, s, u);
    ExchangeLeavesOthers(crypto, s, u);
    ExchangeKeepsSound(crypto, r, v);
    LaterIsTransitive(s, r, t);
    KeysOfRooms(crypto, s, t, u, v);
    KeysOfRooms(crypto, s, t, v, u);
  }

  lemma KeysOfRooms(crypto: Cryptography, s: System, t: System, u: string, v: string)
    requires crypto.DiffieHellman() && Sound(crypto, t) && Later(s, t)
    requires u in s.clients && v in s.clients[u].rooms && v in s.clients && u in s.clients[v].rooms
    requires u in t.clients && v in t.clients[u].rooms && t.clients[u].rooms[v].symmetricKey != ""
    ensures t.clients[u].rooms[v]
            == DhRoom(s.clients[u].rooms[v].dhPrivateKey,
                      crypto.deriveShared(s.clients[u].rooms[v].dhPrivateKey,
                                          crypto.publicOf(s.clients[v].rooms[u].dhPrivateKey)))
  {
    hide Sound, RunOk, Genuine;
    ClientIsOk(crypto, t, u);
    assert KeyOk(crypto, t, u, v, t.clients[u].rooms[v]);
    assert Grows(s.clients[u], t.clients[u]) && Grows(s.clients[v], t.clients[v]);
  }

  lemma IdleClientHasNoTrace(s: System, u: string, v: string)
    requires AllPostOnce(s) && !Pending(s, u, v) && !StoredFor(s, u, v)
    requires v in s.clients && s.clients[v].runs == [] && s.clients[v].deriving == []
    requires u in s.clients[v].rooms && s.clients[v].rooms[u].symmetricKey == ""
    ensures Untraceable(s, u, v)
  {
    NoTraceOfOthersPosts(s, u, v);
  }

  lemma UntraceableHasNoKey(s: System, u: string, v: string)
    requires Untraceable(s, u, v) && v in s.clients && u in s.clients[v].rooms
    ensures s.clients[v].rooms[u].symmetricKey == ""
  {
  }

  /** A user handles all bundles and deletes the marked ones, and stops before any derivation ends. */
  function StoppedBeforeDerivation(crypto: Cryptography, s: System, v: string): System
    requires v in s.clients
  {
    var handled, k := Handled(crypto, s, v), |s.clients[v].runs|;
    HandledAsAWhole(crypto, s, v);
    Do(crypto, Times(crypto, handled, Delete(v, k), |handled.clients[v].runs[k].marked|), Restart(v))
  }

  lemma {:induction false} MarkForEachKeyless(crypto: Cryptography, keyless: set<string>, bundles: seq<Bundle>,
                                              b: Bundle)
    requires b in bundles && b.content.senderPublicKey in keyless
    ensures HashOf(crypto, b.content) in MarksOf(crypto, keyless, bundles)
    decreases |bundles|
  {
    if b in bundles[..|bundles| - 1] {
      MarkForEachKeyless(crypto, keyless, bundles[..|bundles| - 1], b);
    }
  }

  /** That leaves the rooms as they were, and no bundle of a keyless room in the store. */
  lemma StoppedState(crypto: Cryptography, s: System, u: string, v: string)
    requires Sound(crypto, s) && v in s.clients && u in Keyless(s.clients[v].rooms)
    ensures var r := StoppedBeforeDerivation(crypto, s, v);
            && r.clients == s.clients[v := Client(s.clients[v].rooms, [], [], [])]
            && !StoredFor(r, u, v)
  {
    hide Sound, Times, Handled, DerivationsOf, MarksOf, ForReceiver, Keyless;
    var handled, k := Handled(crypto, s, v), |s.clients[v].runs|;
    HandledAsAWhole(crypto, s, v);
    var marked := handled.clients[v].runs[k].marked;
    DeletionsGoThroughTheMarks(crypto, handled, v, k, |marked|);
    assert marked[..|marked|] == marked;
    ReceiversAreMembers(s.bundles, v);
    forall b | b in s.bundles && b.content.senderPublicKey == u && b.receiver == v ensures b.contentHash in marked {
      MarkForEachKeyless(crypto, Keyless(s.clients[v].rooms), ForReceiver(s.bundles, v), b);
      StoredIsGenuine(crypto, s, b);
    }
  }

  /**
     Such losses happen from every reachable state in which a bundle waits for a keyless room:
     an undisturbed exchange gives the key, and one that stops after the deletions leaves a
     room that never gets one.
   */
  lemma StoppingBeforeDerivationLosesTheExchange(crypto: Cryptography, start: System, actions: seq<Action>,
                                                 later: seq<Action>, u: string, v: string)
    requires crypto.DiffieHellman() && Initial(start)
    requires var s := DoAll(crypto, start, actions);
             v in s.clients && u in s.clients[v].rooms && s.clients[v].rooms[u].symmetricKey == "" && StoredFor(s, u, v)
    ensures
      var s := DoAll(crypto, start, actions);
      var x, t := Exchange(crypto, s, v), DoAll(crypto, StoppedBeforeDerivation(crypto, s, v), later);
      && v in x.clients && u in x.clients[v].rooms && x.clients[v].rooms[u].symmetricKey != ""
      && v in t.clients && u in t.clients[v].rooms && t.clients[v].rooms[u].symmetricKey == ""
  {
    hide Sound, AllSourced, DoAll, Do, Exchange, Accepted, Initial, StoppedBeforeDerivation, Untraceable, Later,
         crypto.DiffieHellman;
    RunIsReachable(crypto, start, actions);
    var s := DoAll(crypto, start, actions);
    var r := StoppedBeforeDerivation(crypto, s, v);
    ExchangeYieldsKeyExactlyWhen(crypto, s, u, v);
    StoppedState(crypto, s, u, v);
    StoppedIsSound(crypto, s, v);
    StoredIsNotPending(crypto, s, u, v);
    IdleIsUntraceable(crypto, s, r, u, v);
    UntraceableForGood(crypto, r, later, u, v);
    RunKeepsSound(crypto, r, later);
    RoomsStay(r, DoAll(crypto, r, later), v);
    UntraceableHasNoKey(DoAll(crypto, r, later), u, v);
  }

  lemma StoppedIsSound(crypto: Cryptography, s: System, v: string)
    requires crypto.DiffieHellman() && Sound(crypto, s) && v in s.clients
    ensures Sound(crypto, StoppedBeforeDerivation(crypto, s, v))
  {
    hide Sound, Times, Handled, Do, Later, crypto.DiffieHellman;
    var handled, k := Handled(crypto, s, v), |s.clients[v].runs|;
    HandledAsAWhole(crypto, s, v);
    HandlingKeepsSound(crypto, s, v);
    var n := |handled.clients[v].runs[k].marked|;
    TimesKeepsSound(crypto, handled, Delete(v, k), n);
    StepKeepsSound(crypto, Times(crypto, handled, Delete(v, k), n), Restart(v));
  }

  lemma StoredIsNotPending(crypto: Cryptography, s: System, u: string, v: string)
    requires Reachable(crypto, s) && StoredFor(s, u, v)
    ensures !Pending(s, u, v) && u in s.clients && v in s.clients[u].rooms
  {
    var b :| b in s.bundles && b.content.senderPublicKey == u && b.receiver == v;
    assert Genuine(crypto, s, b) && Accepted(s.accepted, u, v);
    assert PostsOnce(s, u, s.clients[u]);
  }

  lemma IdleIsUntraceable(crypto: Cryptography, s: System, r: System, u: string, v: string)
    requires Reachable(crypto, s) && !Pending(s, u, v) && v in s.clients
    requires u in s.clients[v].rooms && s.clients[v].rooms[u].symmetricKey == ""
    requires r.clients == s.clients[v := Client(s.clients[v].rooms, [], [], [])] && !StoredFor(r, u, v)
    ensures Untraceable(r, u, v)
  {
    hide Sound, AllSourced;
    NoTraceOfOthersPosts(s, u, v);
  }
}
