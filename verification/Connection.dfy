/** One client connection: subscriptions, cancel handles of running queries and NIP-42
    authentication (src/conn.rs, and the loop of `nostr_server` in src/server.rs). */
module Connection {
  import opened Text
  import opened Events
  import opened Filters

  datatype Subscription = Subscription(id: string, filters: seq<ReqFilter>)

  datatype AuthState = NoAuth | Challenge(challenge: string) | AuthPubkey(pubkey: string)

  const MAX_SUBSCRIPTION_ID_LEN: nat := 256

  const MAX_SUBS: nat := 32

  /** What the connection takes from outside: signature checking, URL parsing, settings and the
      challenge drawn for it. */
  datatype Env = Env(
    valid: Event -> bool,
    host: string -> Option<string>,
    nip42Auth: bool,
    nip42Dms: bool,
    relayUrl: Option<string>,
    limitScrapers: bool,
    challenge: string)

  // ----- subscriptions -----

  type Subs = map<string, Subscription>

  datatype SubscribeResult = Subscribed | SubIdMaxLengthError | SubMaxExceededError

  function SubscribeTo(subs: Subs, s: Subscription): (Subs, SubscribeResult) {
    if Utf8Len(s.id) > MAX_SUBSCRIPTION_ID_LEN then (subs, SubIdMaxLengthError)
    else if s.id in subs then (subs[s.id := s], Subscribed)
    else if |subs| >= MAX_SUBS then (subs, SubMaxExceededError)
    else (subs[s.id := s], Subscribed)
  }

  predicate HasSubscription(subs: Subs, s: Subscription) {
    exists k :: k in subs && subs[k] == s
  }

  function Precision(f: ReqFilter): nat {
    (if f.ids.Some? then 2 else 0) + (if f.authors.Some? then 1 else 0) +
    (if f.kinds.Some? then 1 else 0) + (if f.tags.Some? then 1 else 0)
  }

  predicate IsScraper(s: Subscription) {
    exists f :: f in s.filters && Precision(f) < 2
  }

  predicate SubscriptionInterested(s: Subscription, e: Event) {
    exists f :: f in s.filters && InterestedInEvent(f, e)
  }

  // ----- authentication -----

  /** Value of the last two-element tag with this name. */
  function LastPair(tags: seq<Tag>, name: string): Option<string> {
    if tags == [] then None
    else
      var last := tags[|tags| - 1];
      if |last| == 2 && last[0] == name then Some(last[1]) else LastPair(tags[..|tags| - 1], name)
  }

  /** The ten-minute window, in wrapping u64 arithmetic. */
  predicate InWindow(createdAt: U64, now: U64) {
    (now - 600) % (U64_MAX + 1) <= createdAt <= (now + 600) % (U64_MAX + 1)
  }

  /** The event answers this challenge for this relay. */
  predicate Answers(env: Env, e: Event, challenge: string, relayUrl: string, now: U64) {
    && env.valid(e)
    && e.kind == 22242
    && InWindow(e.createdAt, now)
    && LastPair(e.tags, "challenge") == Some(challenge)
    && LastPair(e.tags, "relay").Some?
    && env.host(LastPair(e.tags, "relay").value).Some?
    && env.host(LastPair(e.tags, "relay").value) == env.host(relayUrl)
  }

  function Authenticated(env: Env, auth: AuthState, e: Event, relayUrl: string, now: U64): AuthState {
    if auth.Challenge? && Answers(env, e, auth.challenge, relayUrl, now) then AuthPubkey(e.pubkey) else auth
  }

  /** The wrapping window is the plain one, ten minutes either way, except that within ten minutes of
      either end of u64 it is empty. */
  lemma WindowIsTenMinutes(createdAt: U64, now: U64)
    ensures InWindow(createdAt, now) <==>
            600 <= now < 0x1_0000_0000_0000_0000 - 600 && now - 600 <= createdAt <= now + 600
  {
    if now < 600 {
      assert (now - 600) % (U64_MAX + 1) == now - 600 + U64_MAX + 1;
    } else {
      assert (now - 600) % (U64_MAX + 1) == now - 600;
    }
    if now + 600 > U64_MAX {
      assert (now + 600) % (U64_MAX + 1) == now + 600 - U64_MAX - 1;
    } else {
      assert (now + 600) % (U64_MAX + 1) == now + 600;
    }
  }

  class ClientConn {
    var subscriptions: Subs
    var auth: AuthState

    constructor ()
      ensures subscriptions == map[] && auth == NoAuth
    {
      subscriptions, auth := map[], NoAuth;
    }

    method Subscribe(s: Subscription) returns (r: SubscribeResult)
      modifies this
      ensures (subscriptions, r) == SubscribeTo(old(subscriptions), s) && auth == old(auth)
    {
      if Utf8Len(s.id) > MAX_SUBSCRIPTION_ID_LEN {
        return SubIdMaxLengthError;
      }
      if s.id in subscriptions {
        subscriptions := subscriptions - {s.id};
        subscriptions := subscriptions[s.id := s];
        assert subscriptions == old(subscriptions)[s.id := s];
        return Subscribed;
      }
      if |subscriptions| >= MAX_SUBS {
        return SubMaxExceededError;
      }
      subscriptions := subscriptions[s.id := s];
      r := Subscribed;
    }

    method Unsubscribe(id: string)
      modifies this
      ensures subscriptions == old(subscriptions) - {id} && auth == old(auth)
    {
      subscriptions := subscriptions - {id};
    }

    method GenerateAuthChallenge(challenge: string)
      modifies this
      ensures auth == Challenge(challenge) && subscriptions == old(subscriptions)
    {
      auth := Challenge(challenge);
    }

    method Authenticate(env: Env, e: Event, relayUrl: string, now: U64) returns (ok: bool)
      modifies this
      ensures auth == Authenticated(env, old(auth), e, relayUrl, now) && subscriptions == old(subscriptions)
      ensures ok <==> auth.AuthPubkey?
    {
      match auth {
        case Challenge(_) =>
        case AuthPubkey(_) => return true;
        case NoAuth => return false;
      }
      if !env.valid(e) || e.kind != 22242 {
        return false;
      }
      var pastCutoff, futureCutoff := (now - 600) % (U64_MAX + 1), (now + 600) % (U64_MAX + 1);
      if e.createdAt < pastCutoff || e.createdAt > futureCutoff {
        return false;
      }
      var challenge: Option<string>, relay: Option<string> := None, None;
      for i := 0 to |e.tags|
        invariant challenge == LastPair(e.tags[..i], "challenge") && relay == LastPair(e.tags[..i], "relay")
        invariant auth == old(auth) && subscriptions == old(subscriptions)
      {
        var tag := e.tags[i];
        assert e.tags[..i + 1][..i] == e.tags[..i];
        if |tag| == 2 && tag[0] == "challenge" {
          challenge := Some(tag[1]);
        }
        if |tag| == 2 && tag[0] == "relay" {
          relay := Some(tag[1]);
        }
      }
      assert e.tags[..|e.tags|] == e.tags;
      if challenge.None? || challenge.value != auth.challenge {
        return false;
      }
      if relay.None? || env.host(relay.value).None? || env.host(relayUrl).None? {
        return false;
      }
      if env.host(relay.value).value != env.host(relayUrl).value {
        return false;
      }
      auth := AuthPubkey(e.pubkey);
      ok := true;
    }
  }

  // ----- sending -----

  predicate IsDirectMessage(kind: nat) {
    kind == 4 || kind == 44 || kind == 1059
  }

  /** `allowed_to_send`. */
  predicate AllowedToSend(env: Env, e: Event, auth: AuthState) {
    env.nip42Dms && IsDirectMessage(e.kind) ==>
      var recipients := TagValues(e.tags, "p");
      auth.AuthPubkey? && recipients != [] && (recipients[0] == auth.pubkey || e.pubkey == auth.pubkey)
  }

  // ----- the loop -----

  /** Cancel handles are numbered as they are registered; `fired` lists the ones sent to. */
  datatype Loop = Loop(subs: Subs, auth: AuthState, queries: map<string, nat>, fired: seq<nat>, issued: nat)

  datatype Message =
    | Req(sub: Subscription)
    | Close(id: string)
    | Auth(event: Event, now: U64)
    | QueryResult(subId: string, event: Event)
    | Broadcast(event: Event)

  function Start(env: Env): Loop {
    Loop(map[], if env.nip42Auth then Challenge(env.challenge) else NoAuth, map[], [], 0)
  }

  function OnReq(env: Env, st: Loop, s: Subscription): Loop {
    if HasSubscription(st.subs, s) || (env.limitScrapers && IsScraper(s)) then st
    else
      var (subs, r) := SubscribeTo(st.subs, s);
      if r != Subscribed then st
      else Loop(subs, st.auth, st.queries[s.id := st.issued],
                if s.id in st.queries then st.fired + [st.queries[s.id]] else st.fired, st.issued + 1)
  }

  function OnClose(st: Loop, id: string): Loop {
    st.(subs := st.subs - {id}, queries := st.queries - {id},
        fired := if id in st.queries then st.fired + [st.queries[id]] else st.fired)
  }

  function OnAuth(env: Env, st: Loop, e: Event, now: U64): Loop {
    if env.nip42Auth && env.relayUrl.Some?
    then st.(auth := Authenticated(env, st.auth, e, env.relayUrl.value, now))
    else st
  }

  function Next(env: Env, st: Loop, m: Message): Loop {
    match m
    case Req(s) => OnReq(env, st, s)
    case Close(id) => OnClose(st, id)
    case Auth(e, now) => OnAuth(env, st, e, now)
    case QueryResult(_, _) => st
    case Broadcast(_) => st
  }

  function After(env: Env, ms: seq<Message>): Loop {
    if ms == [] then Start(env) else Next(env, After(env, ms[..|ms| - 1]), ms[|ms| - 1])
  }

  /** Events sent to the client when a message is handled, with the subscription they go to. */
  function Sends(env: Env, st: Loop, m: Message): set<(string, Event)> {
    match m
    case QueryResult(id, e) => if AllowedToSend(env, e, st.auth) then {(id, e)} else {}
    case Broadcast(e) =>
      set id | id in st.subs && SubscriptionInterested(st.subs[id], e) && AllowedToSend(env, e, st.auth) :: (id, e)
    case _ => {}
  }

  class Server {
    const conn: ClientConn
    var runningQueries: map<string, nat>
    var fired: seq<nat>
    var issued: nat

    ghost function View(): Loop
      reads this, conn
    {
      Loop(conn.subscriptions, conn.auth, runningQueries, fired, issued)
    }

    constructor (env: Env)
      ensures View() == Start(env) && fresh(conn)
    {
      conn := new ClientConn();
      runningQueries, fired, issued := map[], [], 0;
      new;
      if env.nip42Auth {
        conn.GenerateAuthChallenge(env.challenge);
      }
    }

    method HandleReq(env: Env, s: Subscription)
      modifies this, conn
      ensures View() == OnReq(env, old(View()), s)
    {
      if HasSubscription(conn.subscriptions, s) {
        return;
      }
      if env.limitScrapers && IsScraper(s) {
        return;
      }
      var r := conn.Subscribe(s);
      if r == Subscribed {
        var handle := issued;
        issued := issued + 1;
        if s.id in runningQueries {
          fired := fired + [runningQueries[s.id]];
        }
        runningQueries := runningQueries[s.id := handle];
      }
    }

    method HandleClose(id: string)
      modifies this, conn
      ensures View() == OnClose(old(View()), id)
    {
      if id in runningQueries {
        fired := fired + [runningQueries[id]];
      }
      runningQueries := runningQueries - {id};
      conn.Unsubscribe(id);
    }

    method HandleAuth(env: Env, e: Event, now: U64)
      modifies conn
      ensures View() == OnAuth(env, old(View()), e, now)
    {
      if env.nip42Auth {
        match env.relayUrl {
          case None =>
          case Some(relay) => var _ := conn.Authenticate(env, e, relay, now);
        }
      }
    }

    /** After the loop: every query still running is told to stop. */
    method Cleanup()
      requires HandlesAccounted(View())
      modifies this
      ensures issued == old(issued) && AllFiredOnce(fired, issued)
    {
      var left := runningQueries;
      while left != map[]
        invariant issued == old(issued)
        invariant HandlesAccounted(Loop(map[], NoAuth, left, fired, issued))
        decreases |left|
      {
        var id :| id in left;
        FireOne(Loop(map[], NoAuth, left, fired, issued), id);
        fired := fired + [left[id]];
        left := left - {id};
      }
    }
  }

  // ----- invariants of the loop -----

  ghost function TimesFired(fired: seq<nat>, h: nat): nat {
    multiset(fired)[h]
  }

  /** Every handle ever registered is either held under exactly one id or was fired exactly once. */
  ghost predicate HandlesAccounted(st: Loop) {
    && (forall id :: id in st.queries ==> st.queries[id] < st.issued && TimesFired(st.fired, st.queries[id]) == 0)
    && (forall i, j :: i in st.queries && j in st.queries && st.queries[i] == st.queries[j] ==> i == j)
    && (forall h :: 0 <= h < st.issued ==> h in st.queries.Values || TimesFired(st.fired, h) == 1)
    && (forall h :: h in st.fired ==> h < st.issued)
  }

  ghost predicate AllFiredOnce(fired: seq<nat>, issued: nat) {
    (forall h :: 0 <= h < issued ==> TimesFired(fired, h) == 1) && forall h :: h in fired ==> h < issued
  }

  ghost predicate SubscriptionsBounded(st: Loop) {
    && st.subs.Keys == st.queries.Keys
    && |st.subs| <= MAX_SUBS
    && forall id :: id in st.subs ==> Utf8Len(id) <= MAX_SUBSCRIPTION_ID_LEN && st.subs[id].id == id
  }

  lemma FireOne(st: Loop, id: string)
    requires HandlesAccounted(st) && id in st.queries
    ensures HandlesAccounted(st.(queries := st.queries - {id}, fired := st.fired + [st.queries[id]]))
  {
    var h0 := st.queries[id];
    var rest := st.queries - {id};
    forall h | 0 <= h < st.issued
      ensures h in rest.Values || TimesFired(st.fired + [h0], h) == 1
    {
      if h != h0 && h in st.queries.Values {
        var j :| j in st.queries && st.queries[j] == h;
        assert rest[j] == h;
      }
    }
  }

  lemma RegisterOne(st: Loop, id: string)
    requires HandlesAccounted(st) && id !in st.queries
    ensures HandlesAccounted(st.(queries := st.queries[id := st.issued], issued := st.issued + 1))
  {
    var more := st.queries[id := st.issued];
    assert st.issued !in st.fired;
    forall h | 0 <= h < st.issued + 1
      ensures h in more.Values || TimesFired(st.fired, h) == 1
    {
      if h == st.issued {
        assert more[id] == h;
      } else if h in st.queries.Values {
        var j :| j in st.queries && st.queries[j] == h;
        assert more[j] == h;
      }
    }
  }

  /** Replacing a running query is firing the old handle, then registering the new one. */
  lemma ReqKeepsHandles(env: Env, st: Loop, s: Subscription)
    requires HandlesAccounted(st)
    ensures HandlesAccounted(OnReq(env, st, s))
  {
    if s.id in st.queries {
      FireOne(st, s.id);
      var fired := st.(queries := st.queries - {s.id}, fired := st.fired + [st.queries[s.id]]);
      RegisterOne(fired, s.id);
      assert fired.queries[s.id := st.issued] == st.queries[s.id := st.issued];
    } else {
      RegisterOne(st, s.id);
    }
  }

  lemma CloseKeepsHandles(st: Loop, id: string)
    requires HandlesAccounted(st)
    ensures HandlesAccounted(OnClose(st, id))
  {
    if id in st.queries {
      FireOne(st, id);
    } else {
      assert st.queries - {id} == st.queries;
    }
  }

  lemma ReqKeepsBounds(env: Env, st: Loop, s: Subscription)
    requires SubscriptionsBounded(st)
    ensures SubscriptionsBounded(OnReq(env, st, s))
  {
    UpdateSize(st.subs, s.id, s);
    assert st.subs[s.id := s].Keys == st.queries[s.id := st.issued].Keys;
  }

  lemma UpdateSize(subs: Subs, id: string, s: Subscription)
    ensures |subs[id := s]| == if id in subs then |subs| else |subs| + 1
  {
    var more := subs[id := s];
    assert |more| == |more.Keys| && |subs| == |subs.Keys|;
    if id in subs {
      assert more.Keys == subs.Keys;
    } else {
      assert more.Keys == subs.Keys + {id};
    }
  }

  lemma CloseKeepsBounds(st: Loop, id: string)
    requires SubscriptionsBounded(st)
    ensures SubscriptionsBounded(OnClose(st, id))
  {
    var less := st.subs - {id};
    assert less.Keys == st.subs.Keys - {id};
    assert |less| == |less.Keys| && |st.subs| == |st.subs.Keys|;
    if id !in st.subs {
      assert less.Keys == st.subs.Keys;
    }
  }

  /** In every run, subscriptions and cancel handles have the same ids, at most 32 of them and each at
      most 256 bytes, and every handle is held or was fired exactly once. */
  lemma {:induction false} LoopInvariant(env: Env, ms: seq<Message>)
    ensures HandlesAccounted(After(env, ms)) && SubscriptionsBounded(After(env, ms))
  {
    if ms == [] {
    } else {
      var init := ms[..|ms| - 1];
      LoopInvariant(env, init);
      MessageKeepsBooks(env, After(env, init), ms[|ms| - 1]);
    }
  }

  lemma MessageKeepsBooks(env: Env, st: Loop, m: Message)
    requires HandlesAccounted(st) && SubscriptionsBounded(st)
    ensures HandlesAccounted(Next(env, st, m)) && SubscriptionsBounded(Next(env, st, m))
  {
    match m
    case Req(s) =>
      ReqKeepsHandles(env, st, s);
      ReqKeepsBounds(env, st, s);
    case Close(id) =>
      CloseKeepsHandles(st, id);
      CloseKeepsBounds(st, id);
    case Auth(e, now) =>
    case QueryResult(_, _) =>
    case Broadcast(_) =>
  }

  // ----- who direct messages go to -----

  /** Message j is an authentication by `pubkey` that answered this connection's own challenge. */
  predicate Proved(env: Env, m: Message, pubkey: string) {
    m.Auth? && m.event.pubkey == pubkey && env.relayUrl.Some? &&
    Answers(env, m.event, env.challenge, env.relayUrl.value, m.now)
  }

  /** The challenge stays the one drawn at the start until it is answered. */
  lemma {:induction false} IdentityWasProved(env: Env, ms: seq<Message>)
    ensures After(env, ms).auth.Challenge? ==> After(env, ms).auth.challenge == env.challenge
    ensures After(env, ms).auth.AuthPubkey? ==>
              exists j :: 0 <= j < |ms| && Proved(env, ms[j], After(env, ms).auth.pubkey)
  {
    if ms == [] {
    } else {
      var init, last := ms[..|ms| - 1], ms[|ms| - 1];
      IdentityWasProved(env, init);
      var st := After(env, init);
      if st.auth.AuthPubkey? {
        var j :| 0 <= j < |init| && Proved(env, init[j], st.auth.pubkey);
        assert Proved(env, ms[j], st.auth.pubkey);
      } else if After(env, ms).auth.AuthPubkey? {
        assert Proved(env, ms[|ms| - 1], last.event.pubkey);
      }
    }
  }

  lemma {:induction false} IdentityNeverChanges(env: Env, ms: seq<Message>, n: nat)
    requires n <= |ms| && After(env, ms[..n]).auth.AuthPubkey?
    ensures After(env, ms).auth == After(env, ms[..n]).auth
  {
    if n == |ms| {
      assert ms[..n] == ms;
    } else {
      var init := ms[..|ms| - 1];
      assert init[..n] == ms[..n];
      IdentityNeverChanges(env, init, n);
    }
  }

  /** With nip42_dms on, whatever direct message is sent, stored or live, goes to a connection that
      earlier proved, in time and against its own challenge and host, to be the author or the first
      `p` recipient; and the connection keeps that identity for the rest of the run. */
  lemma DirectMessagesReachTheirParties(env: Env, ms: seq<Message>, i: nat, id: string, e: Event)
    requires env.nip42Dms && IsDirectMessage(e.kind)
    requires i < |ms| && (id, e) in Sends(env, After(env, ms[..i]), ms[i])
    ensures exists j, pubkey :: 0 <= j < i && Proved(env, ms[j], pubkey) &&
              ms[j].now - 600 <= ms[j].event.createdAt <= ms[j].now + 600 &&
              (e.pubkey == pubkey || (TagValues(e.tags, "p") != [] && TagValues(e.tags, "p")[0] == pubkey)) &&
              After(env, ms).auth == AuthPubkey(pubkey)
  {
    var st := After(env, ms[..i]);
    IdentityWasProved(env, ms[..i]);
    var pubkey := st.auth.pubkey;
    var j :| 0 <= j < i && Proved(env, ms[..i][j], pubkey);
    assert ms[..i][j] == ms[j];
    WindowIsTenMinutes(ms[j].event.createdAt, ms[j].now);
    IdentityNeverChanges(env, ms, i);
  }

  // ----- authentication, exactly -----

  /** Tag i is the last two-element tag with this name. */
  predicate IsLastPair(tags: seq<Tag>, name: string, i: nat) {
    i < |tags| && |tags[i]| == 2 && tags[i][0] == name &&
    forall j :: i < j < |tags| ==> |tags[j]| != 2 || tags[j][0] != name
  }

  lemma {:induction false} LastPairExactly(tags: seq<Tag>, name: string, v: string)
    ensures LastPair(tags, name) == Some(v) <==> exists i: nat :: IsLastPair(tags, name, i) && tags[i][1] == v
  {
    if tags == [] {
    } else {
      var n := |tags| - 1;
      if |tags[n]| == 2 && tags[n][0] == name {
        assert IsLastPair(tags, name, n);
        assert forall i: nat :: IsLastPair(tags, name, i) ==> i == n;
      } else {
        var init := tags[..n];
        LastPairExactly(init, name, v);
        assert forall i: nat :: IsLastPair(init, name, i) <==> IsLastPair(tags, name, i);
      }
    }
  }

  /** Exactly which events answer a challenge: a valid one of kind 22242, at most ten minutes off the clock
      (which is not within ten minutes of the ends of u64), whose last two-element `challenge` tag repeats the challenge and whose
      last two-element `relay` tag names a URL with this relay's host. */
  lemma AnswersExactly(env: Env, e: Event, challenge: string, relayUrl: string, now: U64)
    ensures Answers(env, e, challenge, relayUrl, now) <==>
            && env.valid(e)
            && e.kind == 22242
            && 600 <= now < 0x1_0000_0000_0000_0000 - 600 && now - 600 <= e.createdAt <= now + 600
            && (exists i: nat :: IsLastPair(e.tags, "challenge", i) && e.tags[i][1] == challenge)
            && (exists i: nat :: IsLastPair(e.tags, "relay", i) && env.host(e.tags[i][1]).Some? &&
                  env.host(e.tags[i][1]) == env.host(relayUrl))
  {
    WindowIsTenMinutes(e.createdAt, now);
    LastPairExactly(e.tags, "challenge", challenge);
    var relay := LastPair(e.tags, "relay");
    if relay.Some? {
      LastPairExactly(e.tags, "relay", relay.value);
    }
    forall i: nat | IsLastPair(e.tags, "relay", i)
      ensures relay == Some(e.tags[i][1])
    {
      LastPairExactly(e.tags, "relay", e.tags[i][1]);
    }
  }

  /** Message j is the first that answers the connection's challenge. */
  ghost predicate IsFirstProof(env: Env, ms: seq<Message>, j: nat) {
    j < |ms| && ms[j].Auth? && Proved(env, ms[j], ms[j].event.pubkey) &&
    forall i :: 0 <= i < j && ms[i].Auth? ==> !Proved(env, ms[i], ms[i].event.pubkey)
  }

  ghost predicate NoProof(env: Env, ms: seq<Message>) {
    forall i :: 0 <= i < |ms| && ms[i].Auth? ==> !Proved(env, ms[i], ms[i].event.pubkey)
  }

  lemma {:induction false} AuthByFirstProof(env: Env, ms: seq<Message>)
    ensures
      match After(env, ms).auth
      case NoAuth => !env.nip42Auth
      case Challenge(c) => env.nip42Auth && c == env.challenge && NoProof(env, ms)
      case AuthPubkey(pubkey) =>
        env.nip42Auth && exists j: nat :: IsFirstProof(env, ms, j) && ms[j].event.pubkey == pubkey
  {
    if ms == [] {
    } else {
      var n := |ms| - 1;
      var init := ms[..n];
      AuthByFirstProof(env, init);
      AuthStep(env, After(env, init), ms[n]);
      if After(env, init).auth.AuthPubkey? {
        var j: nat :| IsFirstProof(env, init, j) && init[j].event.pubkey == After(env, init).auth.pubkey;
        FirstProofStays(env, ms, j);
      } else if After(env, init).auth.Challenge? {
        ProofSnoc(env, ms);
      }
    }
  }

  lemma AuthStep(env: Env, st: Loop, m: Message)
    requires st.auth.Challenge? ==> env.nip42Auth && st.auth.challenge == env.challenge
    ensures Next(env, st, m).auth ==
            if st.auth.Challenge? && m.Auth? && Proved(env, m, m.event.pubkey) then AuthPubkey(m.event.pubkey)
            else st.auth
  {
  }

  lemma FirstProofStays(env: Env, ms: seq<Message>, j: nat)
    requires ms != [] && IsFirstProof(env, ms[..|ms| - 1], j)
    ensures IsFirstProof(env, ms, j) && ms[j] == ms[..|ms| - 1][j]
  {
    assert forall i :: 0 <= i < |ms| - 1 ==> ms[..|ms| - 1][i] == ms[i];
  }

  lemma ProofSnoc(env: Env, ms: seq<Message>)
    requires ms != [] && NoProof(env, ms[..|ms| - 1])
    ensures
      var n := |ms| - 1;
      if ms[n].Auth? && Proved(env, ms[n], ms[n].event.pubkey) then IsFirstProof(env, ms, n) else NoProof(env, ms)
  {
    assert forall i :: 0 <= i < |ms| - 1 ==> ms[..|ms| - 1][i] == ms[i];
  }

  /** In every run, exactly the author of the first answer to the challenge is authenticated, if
      authentication is switched on. */
  lemma IdentityExactly(env: Env, ms: seq<Message>, pubkey: string)
    ensures After(env, ms).auth == AuthPubkey(pubkey) <==>
            env.nip42Auth && exists j: nat :: IsFirstProof(env, ms, j) && ms[j].event.pubkey == pubkey
  {
    AuthByFirstProof(env, ms);
    forall j: nat, k: nat | IsFirstProof(env, ms, j) && IsFirstProof(env, ms, k)
      ensures j == k
    {
      OneFirstProof(env, ms, j, k);
    }
  }

  lemma OneFirstProof(env: Env, ms: seq<Message>, j: nat, k: nat)
    requires IsFirstProof(env, ms, j) && IsFirstProof(env, ms, k)
    ensures j == k
  {
  }

  // ----- what is sent, exactly -----

  /** An earlier message proved the connection to be the author, or the first `p` recipient, of an event
      that has one. */
  ghost predicate PartyProved(env: Env, ms: seq<Message>, e: Event) {
    env.nip42Auth &&
    exists j: nat, i: nat :: IsFirstProof(env, ms, j) && IsFirstValued(e.tags, "p", i) &&
      (ms[j].event.pubkey == e.pubkey || ms[j].event.pubkey == e.tags[i][1])
  }

  /** Exactly what goes out, in every run: each query result, and each broadcast to each held subscription
      one of whose filters accepts it; except that with nip42_dms on, an event of kind 4, 44 or 1059 goes
      only to a party that proved itself. */
  lemma SentExactly(env: Env, ms: seq<Message>, m: Message, id: string, e: Event)
    ensures (id, e) in Sends(env, After(env, ms), m) <==>
            && (|| m == QueryResult(id, e)
                || (m == Broadcast(e) && id in After(env, ms).subs &&
                    exists f :: f in After(env, ms).subs[id].filters && InterestedInEvent(f, e)))
            && (env.nip42Dms && e.kind in {4, 44, 1059} ==> PartyProved(env, ms, e))
  {
    AllowedExactly(env, ms, e);
  }

  lemma AllowedExactly(env: Env, ms: seq<Message>, e: Event)
    ensures AllowedToSend(env, e, After(env, ms).auth) <==>
            (env.nip42Dms && e.kind in {4, 44, 1059} ==> PartyProved(env, ms, e))
  {
    var recipients := TagValues(e.tags, "p");
    if recipients != [] {
      FirstValueExactly(e.tags, "p", recipients[0]);
    }
    forall i: nat | IsFirstValued(e.tags, "p", i)
      ensures recipients != [] && recipients[0] == e.tags[i][1]
    {
      FirstValueExactly(e.tags, "p", e.tags[i][1]);
    }
    var auth := After(env, ms).auth;
    if auth.AuthPubkey? {
      IdentityExactly(env, ms, auth.pubkey);
    }
    forall j: nat | env.nip42Auth && IsFirstProof(env, ms, j)
      ensures auth == AuthPubkey(ms[j].event.pubkey)
    {
      IdentityExactly(env, ms, ms[j].event.pubkey);
    }
  }

  // ----- which subscriptions are held, exactly -----

  /** A filter that asks for nothing in particular: no ids, and at most one of authors, kinds and tags. */
  predicate AsksLittle(f: ReqFilter) {
    f.ids.None? &&
    (|| (f.authors.None? && f.kinds.None?)
     || (f.authors.None? && f.tags.None?)
     || (f.kinds.None? && f.tags.None?))
  }

  /** A request that takes effect: no equal subscription is held, it is no scraper where those are
      limited, its id has at most 256 bytes, and it replaces one or there are fewer than 32. */
  predicate TakesEffect(env: Env, st: Loop, s: Subscription) {
    && (forall id :: id in st.subs ==> st.subs[id] != s)
    && !(env.limitScrapers && exists f :: f in s.filters && AsksLittle(f))
    && |Utf8EncodeAll(s.id)| <= 256
    && (s.id in st.subs || |st.subs| < 32)
  }

  lemma ReqExactly(env: Env, st: Loop, s: Subscription)
    ensures OnReq(env, st, s) ==
            if !TakesEffect(env, st, s) then st
            else Loop(st.subs[s.id := s], st.auth, st.queries[s.id := st.issued],
                      st.fired + (if s.id in st.queries then [st.queries[s.id]] else []), st.issued + 1)
  {
    Utf8LenCountsBytes(s.id);
    assert forall f :: Precision(f) < 2 <==> AsksLittle(f);
  }

  /** Request i for this id took effect, and nothing later closed or replaced it. */
  ghost predicate IsLatest(env: Env, ms: seq<Message>, id: string, s: Subscription, i: nat) {
    i < |ms| && ms[i] == Req(s) && Changes(env, ms[..i], ms[i], id) &&
    forall j :: i < j < |ms| ==> !Changes(env, ms[..j], ms[j], id)
  }

  /** In every run, held under an id is exactly the latest request for it that took effect and was not
      closed since. */
  lemma {:induction false} HeldExactly(env: Env, ms: seq<Message>, id: string, s: Subscription)
    ensures (id in After(env, ms).subs && After(env, ms).subs[id] == s) <==>
            exists i: nat :: IsLatest(env, ms, id, s, i)
  {
    if ms == [] {
    } else {
      var n := |ms| - 1;
      var init := ms[..n];
      HeldExactly(env, init, id, s);
      var last := ms[n];
      forall i: nat | i < n
        ensures IsLatest(env, ms, id, s, i) <==> IsLatest(env, init, id, s, i) && !Changes(env, init, last, id)
      {
        LatestSnoc(env, ms, id, s, i);
      }
      LatestIsLast(env, ms, id, s);
      HeldStep(env, init, last, id, s);
      assert forall i: nat :: IsLatest(env, init, id, s, i) ==> i < n;
    }
  }

  /** The message closes the subscription or is a request for it that takes effect. */
  predicate Changes(env: Env, before: seq<Message>, m: Message, id: string) {
    m == Close(id) || (m.Req? && m.sub.id == id && TakesEffect(env, After(env, before), m.sub))
  }

  lemma HeldStep(env: Env, init: seq<Message>, m: Message, id: string, s: Subscription)
    ensures
      var before, after := After(env, init).subs, Next(env, After(env, init), m).subs;
      (id in after && after[id] == s) <==>
      if Changes(env, init, m, id) then m == Req(s) else id in before && before[id] == s
  {
    if m.Req? {
      ReqExactly(env, After(env, init), m.sub);
    }
  }

  lemma LatestIsLast(env: Env, ms: seq<Message>, id: string, s: Subscription)
    requires ms != []
    ensures
      var n := |ms| - 1;
      IsLatest(env, ms, id, s, n) <==> ms[n] == Req(s) && Changes(env, ms[..n], ms[n], id)
  {
  }

  lemma LatestSnoc(env: Env, ms: seq<Message>, id: string, s: Subscription, i: nat)
    requires i < |ms| - 1
    ensures
      var n := |ms| - 1;
      var init, last := ms[..n], ms[n];
      IsLatest(env, ms, id, s, i) <==> IsLatest(env, init, id, s, i) && !Changes(env, init, last, id)
  {
    var n := |ms| - 1;
    var init := ms[..n];
    assert forall j :: 0 <= j < n ==> init[j] == ms[j] && init[..j] == ms[..j];
  }
}
