/**
 The WebSocket bridge as a protocol: an accept loop bounded by a limiter, and one task per
 connection whose lock acquisitions interleave with everyone else's. Every event is one
 uninterrupted stretch of one task; an event that is not enabled changes nothing, so event
 sequences are exactly the interleavings.
 */
module WsBridge {
  import opened ByteOrder
  import opened Characters
  import opened Sequences
  import opened Utf8
  import opened Wrappers

  datatype Access = Deny | Allow

  datatype Config = Config(sharedSecret: Option<string>, access: Access, maxConnections: nat)

  // --------------------------------------------------------------------------- credentials

  /** The trimmed secret, unless nothing is left of it. */
  function EffectiveSecret(config: Config): Option<string> {
    match config.sharedSecret
    case None => None
    case Some(s) => var t := Trim(s); if t == [] then None else Some(t)
  }

  /** Bitwise exclusive or. */
  function Xor(x: nat, y: nat): nat
    decreases x + y
  {
    if x == 0 && y == 0 then 0 else (if x % 2 != y % 2 then 1 else 0) + 2 * Xor(x / 2, y / 2)
  }

  /** Bitwise or. */
  function Or(x: nat, y: nat): nat
    decreases x + y
  {
    if x == 0 && y == 0 then 0 else (if x % 2 == 1 || y % 2 == 1 then 1 else 0) + 2 * Or(x / 2, y / 2)
  }

  /** The bytes of `a` and `b` compared without an early exit: differences accumulate in `acc`. */
  function Differences(a: Bytes, b: Bytes, acc: nat): nat
    requires |a| == |b|
  {
    if a == [] then acc else Differences(a[1..], b[1..], Or(acc, Xor(a[0], b[0])))
  }

  function ConstantTimeEq(a: Bytes, b: Bytes): bool {
    |a| == |b| && Differences(a, b, 0) == 0
  }

  lemma {:induction false} XorZero(x: nat, y: nat)
    ensures Xor(x, y) == 0 <==> x == y
    decreases x + y
  {
    if x == 0 && y == 0 {
    } else {
      XorZero(x / 2, y / 2);
    }
  }

  lemma {:induction false} OrZero(x: nat, y: nat)
    ensures Or(x, y) == 0 <==> x == 0 && y == 0
    decreases x + y
  {
    if x == 0 && y == 0 {
    } else {
      OrZero(x / 2, y / 2);
    }
  }

  lemma {:induction false} DifferencesZero(a: Bytes, b: Bytes, acc: nat)
    requires |a| == |b|
    ensures Differences(a, b, acc) == 0 <==> acc == 0 && a == b
    decreases a
  {
    if a == [] {
    } else {
      DifferencesZero(a[1..], b[1..], Or(acc, Xor(a[0], b[0])));
      XorZero(a[0], b[0]);
      OrZero(acc, Xor(a[0], b[0]));
      assert a == [a[0]] + a[1..] && b == [b[0]] + b[1..];
    }
  }

  /** The comparison accepts exactly identical byte strings. */
  lemma ConstantTimeEqIsEquality(a: Bytes, b: Bytes)
    ensures ConstantTimeEq(a, b) <==> a == b
  {
    if |a| == |b| {
      DifferencesZero(a, b, 0);
    }
  }

  /** So the bytes of two texts compare equal exactly when the texts are the same. */
  lemma TokensCompare(token: string, secret: string)
    ensures ConstantTimeEq(Encode(token), Encode(secret)) <==> token == secret
  {
    ConstantTimeEqIsEquality(Encode(token), Encode(secret));
    if Encode(token) == Encode(secret) {
      EncodeInjective(token, secret);
    }
  }

  /** A blank secret counts as unset, and nothing else does. */
  lemma NoSecretIffBlank(config: Config)
    ensures EffectiveSecret(config).None? <==> config.sharedSecret.None? || Blank(config.sharedSecret.value)
  {
    if config.sharedSecret.Some? {
      TrimmedAwayIffBlank(config.sharedSecret.value);
    }
  }

  /** The secret is the configured text without the white space around it. */
  lemma SecretIsTrimmed(config: Config) returns (before: string, after: string)
    requires EffectiveSecret(config).Some?
    ensures config.sharedSecret.Some?
    ensures Strips(config.sharedSecret.value, before, EffectiveSecret(config).value, after)
  {
    before, after := TrimStrips(config.sharedSecret.value);
  }

  // ------------------------------------------------------------------------------ protocol

  datatype ClientMessage =
    | Publish(topic: string, payload: string)
    | Subscribe(topic: string)
    | Unsubscribe(topic: string)

  /** A text frame as the two JSON readers see it: the token it carries, the message it encodes. */
  datatype Frame = Frame(token: Option<string>, message: Option<ClientMessage>)

  /** Where a connection's task stands, between two of its uninterrupted stretches. */
  datatype Phase =
    | Spawned                                   // holds a permit, has done nothing
    | Shaken(peer: nat)                         // handshake done, peer number drawn
    | Counted(peer: nat)                        // connected_clients incremented
    | Serving(peer: nat, authenticated: bool)   // subscriptions entry inserted, in the select loop
    | Leaving(peer: nat)                        // out of the loop
    | Unregistered(peer: nat)                   // subscriptions entry removed
    | Finished                                  // handler returned, permit not dropped yet

  datatype Bridge = Bridge(
    conns: map<nat, Phase>, nextConn: nat, permits: nat, nextPeer: nat,
    connected: nat, subscriptions: map<nat, seq<string>>, published: seq<ClientMessage>)

  datatype Event =
    | Accept
    | Begin(conn: nat, handshakes: bool)
    | Count(conn: nat)
    | Register(conn: nat)
    | Receive(conn: nat, frame: Frame)
    | Disconnect(conn: nat)      // receive error, failed forward, or no source left to wait for
    | Unregister(conn: nat)
    | Uncount(conn: nat)
    | Release(conn: nat)

  const IDLE := Bridge(map[], 0, 0, 0, 0, map[], [])

  function Move(b: Bridge, conn: nat, phase: Phase): Bridge {
    b.(conns := b.conns[conn := phase])
  }

  /** `topics.retain(|t| t != &topic)` */
  function Retain(topics: seq<string>, topic: string): seq<string> {
    if topics == [] then []
    else (if topics[0] != topic then [topics[0]] else []) + Retain(topics[1..], topic)
  }

  function Handle(b: Bridge, peer: nat, message: ClientMessage): Bridge {
    match message
    case Publish(_, _) => b.(published := b.published + [message])
    case Subscribe(topic) =>
      if peer in b.subscriptions && topic !in b.subscriptions[peer]
      then b.(subscriptions := b.subscriptions[peer := b.subscriptions[peer] + [topic]]) else b
    case Unsubscribe(topic) =>
      if peer in b.subscriptions
      then b.(subscriptions := b.subscriptions[peer := Retain(b.subscriptions[peer], topic)]) else b
  }

  predicate Presents(config: Config, frame: Frame) {
    && frame.token.Some? && EffectiveSecret(config).Some?
    && ConstantTimeEq(Encode(frame.token.value), Encode(EffectiveSecret(config).value))
  }

  function Step(config: Config, b: Bridge, e: Event): Bridge {
    if e.Accept? then
      if b.permits < config.maxConnections
      then Move(b, b.nextConn, Spawned).(nextConn := b.nextConn + 1, permits := b.permits + 1)
      else b
    else if e.conn !in b.conns then b
    else
      match (e, b.conns[e.conn])
      case (Begin(c, handshakes), Spawned) =>
        if (EffectiveSecret(config).None? && config.access == Deny) || !handshakes then Move(b, c, Finished)
        else Move(b, c, Shaken(b.nextPeer)).(nextPeer := b.nextPeer + 1)
      case (Count(c), Shaken(peer)) =>
        Move(b, c, Counted(peer)).(connected := b.connected + 1)
      case (Register(c), Counted(peer)) =>
        Move(b, c, Serving(peer, EffectiveSecret(config).None?)).(subscriptions := b.subscriptions[peer := ["*"]])
      case (Receive(c, frame), Serving(peer, authenticated)) =>
        if !authenticated then
          Move(b, c, if Presents(config, frame) then Serving(peer, true) else Leaving(peer))
        else if frame.message.Some? then Handle(b, peer, frame.message.value)
        else b
      case (Disconnect(c), Serving(peer, _)) =>
        Move(b, c, Leaving(peer))
      case (Unregister(c), Leaving(peer)) =>
        Move(b, c, Unregistered(peer)).(subscriptions := b.subscriptions - {peer})
      case (Uncount(c), Unregistered(_)) =>
        Move(b, c, Finished).(connected := if b.connected > 0 then b.connected - 1 else 0)
      case (Release(c), Finished) =>
        b.(conns := b.conns - {c}, permits := if b.permits > 0 then b.permits - 1 else 0)
      case _ => b
  }

  function Run(config: Config, events: seq<Event>): Bridge {
    if events == [] then IDLE
    else Step(config, Run(config, events[..|events| - 1]), events[|events| - 1])
  }

  // ----------------------------------------------------------------------------- invariant

  predicate IsCounted(p: Phase) {
    p.Counted? || p.Serving? || p.Leaving? || p.Unregistered?
  }

  predicate IsRegistered(p: Phase) {
    p.Serving? || p.Leaving?
  }

  predicate HasPeer(p: Phase) {
    !p.Spawned? && !p.Finished?
  }

  ghost function CountedConns(conns: map<nat, Phase>): set<nat> {
    set c | c in conns && IsCounted(conns[c])
  }

  ghost function RegisteredPeers(conns: map<nat, Phase>): set<nat> {
    set c | c in conns && IsRegistered(conns[c]) :: conns[c].peer
  }

  ghost predicate PeersDistinct(conns: map<nat, Phase>, nextPeer: nat) {
    && (forall c :: c in conns && HasPeer(conns[c]) ==> conns[c].peer < nextPeer)
    && (forall c, d :: c in conns && d in conns && HasPeer(conns[c]) && HasPeer(conns[d]) && c != d
                       ==> conns[c].peer != conns[d].peer)
  }

  /** Permits are the live connections, never more than the cap, and their numbers are not reused. */
  ghost predicate PermitsInv(config: Config, b: Bridge) {
    && b.permits == |b.conns| <= config.maxConnections
    && forall c :: c in b.conns ==> c < b.nextConn
  }

  /** The client counter is the connections between increment and decrement. */
  ghost predicate CounterInv(b: Bridge) {
    b.connected == |CountedConns(b.conns)|
  }

  /** One duplicate-free list for exactly the registered peers. */
  ghost predicate TableInv(b: Bridge) {
    && b.subscriptions.Keys == RegisteredPeers(b.conns)
    && forall p :: p in b.subscriptions ==> Distinct(b.subscriptions[p])
  }

  ghost predicate Inv(config: Config, b: Bridge) {
    PermitsInv(config, b) && PeersDistinct(b.conns, b.nextPeer) && CounterInv(b) && TableInv(b)
  }

  /** How the counted connections change when one connection moves. */
  lemma MoveCounted(conns: map<nat, Phase>, c: nat, q: Phase)
    ensures var before := c in conns && IsCounted(conns[c]);
      |CountedConns(conns[c := q])| ==
      |CountedConns(conns)| + (if IsCounted(q) then 1 else 0) - (if before then 1 else 0)
  {
    var rest := CountedConns(conns) - {c};
    assert CountedConns(conns[c := q]) == if IsCounted(q) then rest + {c} else rest;
    assert CountedConns(conns) == if c in conns && IsCounted(conns[c]) then rest + {c} else rest;
  }

  /** How the registered peers change when one connection moves without changing its peer. */
  lemma MoveRegistered(conns: map<nat, Phase>, nextPeer: nat, c: nat, q: Phase)
    requires PeersDistinct(conns, nextPeer) && c in conns
    requires HasPeer(conns[c]) && HasPeer(q) ==> q.peer == conns[c].peer
    ensures RegisteredPeers(conns[c := q]) ==
            RegisteredPeers(conns) - (if IsRegistered(conns[c]) then {conns[c].peer} else {})
            + (if IsRegistered(q) then {q.peer} else {})
  {
    var conns' := conns[c := q];
    var gone: set<nat> := if IsRegistered(conns[c]) then {conns[c].peer} else {};
    var come: set<nat> := if IsRegistered(q) then {q.peer} else {};
    forall p
      ensures p in RegisteredPeers(conns') <==> p in RegisteredPeers(conns) - gone + come
    {
      if p in RegisteredPeers(conns') {
        var d :| d in conns' && IsRegistered(conns'[d]) && conns'[d].peer == p;
        assert d != c ==> conns[d] == conns'[d];
      }
      if p in RegisteredPeers(conns) - gone {
        var d :| d in conns && IsRegistered(conns[d]) && conns[d].peer == p;
        assert conns'[d] == conns[d];
      }
      if p in come {
        assert conns'[c] == q;
      }
    }
  }

  lemma {:induction false} RetainDistinct(topics: seq<string>, topic: string)
    requires Distinct(topics)
    ensures Distinct(Retain(topics, topic))
    ensures forall t :: t in Retain(topics, topic) <==> t in topics && t != topic
  {
    if topics == [] {
    } else {
      RetainDistinct(topics[1..], topic);
      assert topics == [topics[0]] + topics[1..];
      assert topics[0] !in topics[1..];
    }
  }

  /** A connection that is neither counted nor registered, before or after, leaves both sets alone. */
  lemma QuietMove(conns: map<nat, Phase>, c: nat, q: Phase)
    requires !IsCounted(q)
    requires c in conns ==> !IsCounted(conns[c]) && !IsRegistered(conns[c])
    ensures CountedConns(conns[c := q]) == CountedConns(conns)
    ensures RegisteredPeers(conns[c := q]) == RegisteredPeers(conns)
  {
    var conns' := conns[c := q];
    forall p
      ensures p in RegisteredPeers(conns') <==> p in RegisteredPeers(conns)
    {
      if p in RegisteredPeers(conns) {
        var d :| d in conns && IsRegistered(conns[d]) && conns[d].peer == p;
        assert conns'[d] == conns[d];
      }
    }
  }

  lemma QuietRemoval(conns: map<nat, Phase>, c: nat)
    requires c in conns && !IsCounted(conns[c]) && !IsRegistered(conns[c])
    ensures |conns - {c}| == |conns| - 1
    ensures CountedConns(conns - {c}) == CountedConns(conns)
    ensures RegisteredPeers(conns - {c}) == RegisteredPeers(conns)
  {
    var conns' := conns - {c};
    assert conns'.Keys == conns.Keys - {c};
    assert |conns'.Keys| == |conns'| && |conns.Keys| == |conns|;
    forall p
      ensures p in RegisteredPeers(conns') <==> p in RegisteredPeers(conns)
    {
      if p in RegisteredPeers(conns) {
        var d :| d in conns && IsRegistered(conns[d]) && conns[d].peer == p;
        assert conns'[d] == conns[d];
      }
    }
  }

  /** Counted connections make the decrement exact: the saturating subtraction never clamps. */
  lemma UncountExact(config: Config, b: Bridge, c: nat)
    requires Inv(config, b) && c in b.conns && IsCounted(b.conns[c])
    ensures b.connected > 0
  {
    assert c in CountedConns(b.conns);
  }

  /** Connection `c` moves to `q`: its peer number stays or is drawn, and the client counter follows. */
  ghost predicate MovesTo(b: Bridge, b': Bridge, c: nat, q: Phase) {
    && c in b.conns && b'.conns == b.conns[c := q] && b'.permits == b.permits && b'.nextConn == b.nextConn
    && (|| (b'.nextPeer == b.nextPeer && (HasPeer(q) ==> HasPeer(b.conns[c]) && q.peer == b.conns[c].peer))
        || (b'.nextPeer == b.nextPeer + 1 && q == Shaken(b.nextPeer) && b.conns[c].Spawned?))
    && b'.connected ==
       if IsCounted(q) then if IsCounted(b.conns[c]) then b.connected else b.connected + 1
       else if IsCounted(b.conns[c]) && b.connected > 0 then b.connected - 1 else b.connected
  }

  /** The table when connection `c` moves to `q`. */
  ghost predicate TableMoves(b: Bridge, b': Bridge, c: nat, q: Phase)
    requires c in b.conns
  {
    b'.subscriptions ==
    if IsRegistered(q) then
      if IsRegistered(b.conns[c]) then b.subscriptions else b.subscriptions[q.peer := ["*"]]
    else
      if IsRegistered(b.conns[c]) then b.subscriptions - {b.conns[c].peer} else b.subscriptions
  }

  ghost predicate Spawns(config: Config, b: Bridge, b': Bridge) {
    && b.permits < config.maxConnections
    && b' == Move(b, b.nextConn, Spawned).(nextConn := b.nextConn + 1, permits := b.permits + 1)
  }

  ghost predicate Releases(b: Bridge, b': Bridge, c: nat) {
    && c in b.conns && b.conns[c].Finished?
    && b' == b.(conns := b.conns - {c}, permits := if b.permits > 0 then b.permits - 1 else 0)
  }

  ghost predicate Acts(b: Bridge, b': Bridge, e: Event) {
    ActsOn(b, e) && b' == Handle(b, b.conns[e.conn].peer, e.frame.message.value)
  }

  ghost predicate Moves(b: Bridge, b': Bridge, c: nat) {
    c in b'.conns && MovesTo(b, b', c, b'.conns[c]) && TableMoves(b, b', c, b'.conns[c])
  }

  /** What a step can be: nothing, a new connection, a finished one released, an act, a move. */
  lemma {:induction false} StepShape(config: Config, b: Bridge, e: Event)
    ensures var b' := Step(config, b, e);
      || b' == b
      || (e.Accept? && Spawns(config, b, b'))
      || (e.Release? && Releases(b, b', e.conn))
      || Acts(b, b', e)
      || (!e.Accept? && Moves(b, b', e.conn))
  {
  }

  lemma SizeAfter(conns: map<nat, Phase>, c: nat, q: Phase)
    ensures |conns[c := q]| == |conns| + if c in conns then 0 else 1
  {
    assert conns[c := q].Keys == conns.Keys + {c};
    assert c in conns ==> conns.Keys + {c} == conns.Keys;
    assert |conns[c := q].Keys| == |conns[c := q]| && |conns.Keys| == |conns|;
  }

  lemma {:induction false} SpawnKeeps(config: Config, b: Bridge, b': Bridge)
    requires Inv(config, b) && Spawns(config, b, b')
    ensures Inv(config, b')
  {
    assert b.nextConn !in b.conns;
    SizeAfter(b.conns, b.nextConn, Spawned);
    QuietMove(b.conns, b.nextConn, Spawned);
  }

  lemma {:induction false} ReleaseKeeps(config: Config, b: Bridge, b': Bridge, c: nat)
    requires Inv(config, b) && Releases(b, b', c)
    ensures Inv(config, b')
  {
    QuietRemoval(b.conns, c);
    assert b.permits > 0;
  }

  lemma MovedPeers(b: Bridge, b': Bridge, c: nat, q: Phase)
    requires PeersDistinct(b.conns, b.nextPeer) && MovesTo(b, b', c, q)
    ensures PeersDistinct(b'.conns, b'.nextPeer)
  {
  }

  lemma MovedCounter(b: Bridge, b': Bridge, c: nat, q: Phase)
    requires CounterInv(b) && MovesTo(b, b', c, q)
    ensures CounterInv(b')
  {
    MoveCounted(b.conns, c, q);
    assert IsCounted(b.conns[c]) ==> c in CountedConns(b.conns);
  }

  /** A message acted on keeps the lists duplicate-free and adds or removes no list. */
  lemma HandleTable(b: Bridge, peer: nat, message: ClientMessage)
    requires TableInv(b)
    ensures TableInv(Handle(b, peer, message))
  {
    if message.Unsubscribe? && peer in b.subscriptions {
      RetainDistinct(b.subscriptions[peer], message.topic);
    }
    assert Handle(b, peer, message).subscriptions.Keys == b.subscriptions.Keys;
  }

  lemma MoveTable(b: Bridge, b': Bridge, c: nat, q: Phase)
    requires PeersDistinct(b.conns, b.nextPeer) && TableInv(b)
    requires c in b.conns && b'.conns == b.conns[c := q] && TableMoves(b, b', c, q)
    requires HasPeer(b.conns[c]) && HasPeer(q) ==> q.peer == b.conns[c].peer
    ensures TableInv(b')
  {
    MoveRegistered(b.conns, b.nextPeer, c, q);
    assert IsRegistered(b.conns[c]) ==> b.conns[c].peer in RegisteredPeers(b.conns);
  }

  lemma {:induction false} MoveKeeps(config: Config, b: Bridge, b': Bridge, c: nat, q: Phase)
    requires Inv(config, b) && MovesTo(b, b', c, q) && TableMoves(b, b', c, q)
    ensures Inv(config, b')
  {
    SizeAfter(b.conns, c, q);
    MovedPeers(b, b', c, q);
    MovedCounter(b, b', c, q);
    MoveTable(b, b', c, q);
  }

  lemma {:induction false} StepKeeps(config: Config, b: Bridge, e: Event)
    requires Inv(config, b)
    ensures Inv(config, Step(config, b, e))
  {
    var b' := Step(config, b, e);
    StepShape(config, b, e);
    if Acts(b, b', e) {
      HandleTable(b, b.conns[e.conn].peer, e.frame.message.value);
    } else if b' != b {
      if e.Accept? {
        SpawnKeeps(config, b, b');
      } else if Moves(b, b', e.conn) {
        MoveKeeps(config, b, b', e.conn, b'.conns[e.conn]);
      } else {
        ReleaseKeeps(config, b, b', e.conn);
      }
    }
  }

  /**
   In every interleaving: permits are the live connections and never exceed the cap, the
   client counter is exactly the connections between increment and decrement, and the table
   has one duplicate-free list for exactly the registered peers.
   */
  lemma {:induction false} RunKeeps(config: Config, events: seq<Event>)
    ensures Inv(config, Run(config, events))
    ensures |Run(config, events).conns| <= config.maxConnections
    ensures Run(config, events).connected == |CountedConns(Run(config, events).conns)|
    ensures Run(config, events).subscriptions.Keys == RegisteredPeers(Run(config, events).conns)
  {
    if events == [] {
    } else {
      RunKeeps(config, events[..|events| - 1]);
      StepKeeps(config, Run(config, events[..|events| - 1]), events[|events| - 1]);
    }
  }

  // -------------------------------------------------------------------------- authentication

  /** Event `e` makes the bridge act on a client message. */
  ghost predicate ActsOn(b: Bridge, e: Event) {
    && e.Receive? && e.frame.message.Some? && e.conn in b.conns
    && b.conns[e.conn].Serving? && b.conns[e.conn].authenticated
  }

  /** Some earlier text frame of this connection carried exactly the secret. */
  ghost predicate Presented(config: Config, events: seq<Event>, conn: nat) {
    exists j: nat ::
      && j < |events| && events[j].Receive? && events[j].conn == conn
      && events[j].frame.token.Some? && EffectiveSecret(config) == Some(events[j].frame.token.value)
  }

  ghost predicate OptedIn(config: Config) {
    EffectiveSecret(config).None? && config.access == Allow
  }

  lemma PresentedExtends(config: Config, events: seq<Event>, e: Event, conn: nat)
    requires Presented(config, events, conn)
    ensures Presented(config, events + [e], conn)
  {
    var j: nat :|
      && j < |events| && events[j].Receive? && events[j].conn == conn
      && events[j].frame.token.Some? && EffectiveSecret(config) == Some(events[j].frame.token.value);
    assert (events + [e])[j] == events[j];
  }

  /** Past the first check there was a handshake, and either there is a secret or the operator opted in. */
  ghost predicate Admitted(config: Config, events: seq<Event>, c: nat, p: Phase) {
    && (HasPeer(p) ==> Begin(c, true) in events && (EffectiveSecret(config).Some? || config.access == Allow))
    && (p.Serving? && p.authenticated ==> OptedIn(config) || Presented(config, events, c))
  }

  lemma {:induction false} StepAdmits(config: Config, b: Bridge, events: seq<Event>, e: Event, c: nat)
    requires c in Step(config, b, e).conns
    requires c in b.conns ==> Admitted(config, events, c, b.conns[c])
    ensures Admitted(config, events + [e], c, Step(config, b, e).conns[c])
  {
    var b' := Step(config, b, e);
    if c in b.conns && Presented(config, events, c) {
      PresentedExtends(config, events, e, c);
    }
    if c in b.conns && b'.conns[c] != b.conns[c] && b'.conns[c].Serving? && e.Receive? {
      assert e.conn == c && Presents(config, e.frame);
      TokensCompare(e.frame.token.value, EffectiveSecret(config).value);
      assert (events + [e])[|events|] == e;
      assert Presented(config, events + [e], c);
    }
  }

  lemma {:induction false} RunAdmits(config: Config, events: seq<Event>, c: nat)
    requires c in Run(config, events).conns
    ensures Admitted(config, events, c, Run(config, events).conns[c])
  {
    if events == [] {
    } else {
      var n := |events| - 1;
      var b := Run(config, events[..n]);
      if c in b.conns {
        RunAdmits(config, events[..n], c);
      }
      StepAdmits(config, b, events[..n], events[n], c);
      assert events[..n] + [events[n]] == events;
    }
  }

  /**
   Whenever the bridge acts on a client message, that connection has completed its handshake
   and has earlier sent a text
   frame whose token equals the configured secret, or no secret is configured and the
   operator explicitly allowed unauthenticated access.
   */
  lemma ActsOnlyWhenAuthenticated(config: Config, events: seq<Event>, e: Event)
    requires ActsOn(Run(config, events), e)
    ensures Begin(e.conn, true) in events
    ensures OptedIn(config) || Presented(config, events, e.conn)
  {
    RunAdmits(config, events, e.conn);
  }

  /** The publications among the messages the bridge acted on, in order. */
  ghost function Publications(config: Config, events: seq<Event>): seq<ClientMessage> {
    if events == [] then []
    else
      var (front, e) := (events[..|events| - 1], events[|events| - 1]);
      Publications(config, front) +
      if ActsOn(Run(config, front), e) && e.frame.message.value.Publish? then [e.frame.message.value] else []
  }

  lemma StepPublishes(config: Config, b: Bridge, e: Event)
    ensures Step(config, b, e).published ==
            b.published + if ActsOn(b, e) && e.frame.message.value.Publish? then [e.frame.message.value] else []
  {
  }

  /** In every interleaving the bus has received exactly the publications acted on, in order. */
  lemma {:induction false} PublishedAreActedOn(config: Config, events: seq<Event>)
    ensures Run(config, events).published == Publications(config, events)
  {
    if events == [] {
    } else {
      var front := events[..|events| - 1];
      PublishedAreActedOn(config, front);
      StepPublishes(config, Run(config, front), events[|events| - 1]);
    }
  }

  // --------------------------------------------------------------------------- subscriptions

  /** Whether connection `c` is subscribed to `t` after event `e`, given whether it was before. */
  ghost predicate SubscribedBy(b: Bridge, e: Event, c: nat, t: string, before: bool) {
    if e == Register(c) && c in b.conns && b.conns[c].Counted? then t == "*"
    else if ActsOn(b, e) && e.conn == c && e.frame.message == Some(Subscribe(t)) then true
    else if ActsOn(b, e) && e.conn == c && e.frame.message == Some(Unsubscribe(t)) then false
    else before
  }

  /** The last event of connection `c` that concerns `t` decides; other connections do not matter. */
  ghost predicate Subscribed(config: Config, events: seq<Event>, c: nat, t: string) {
    events != [] &&
    var front := events[..|events| - 1];
    SubscribedBy(Run(config, front), events[|events| - 1], c, t, Subscribed(config, front, c, t))
  }

  /** The list of connection `c` contains `t`. */
  ghost predicate Lists(b: Bridge, c: nat, t: string) {
    && c in b.conns && IsRegistered(b.conns[c])
    && b.conns[c].peer in b.subscriptions && t in b.subscriptions[b.conns[c].peer]
  }

  /** A message acted on adds or removes exactly its topic. */
  lemma HandleLists(b: Bridge, peer: nat, message: ClientMessage, t: string)
    requires peer in b.subscriptions && Distinct(b.subscriptions[peer])
    ensures peer in Handle(b, peer, message).subscriptions
    ensures t in Handle(b, peer, message).subscriptions[peer] <==>
            message == Subscribe(t) || (message != Unsubscribe(t) && t in b.subscriptions[peer])
  {
    if message.Unsubscribe? {
      RetainDistinct(b.subscriptions[peer], message.topic);
    }
  }

  /** Event `e` registers connection `c`. */
  ghost predicate Fresh(b: Bridge, e: Event, c: nat) {
    c in b.conns && !IsRegistered(b.conns[c]) && e == Register(c) && b.conns[c].Counted?
  }

  lemma ActingLists(b: Bridge, e: Event, c: nat, t: string)
    requires PeersDistinct(b.conns, b.nextPeer) && TableInv(b) && ActsOn(b, e)
    requires c in b.conns && IsRegistered(b.conns[c])
    ensures Lists(Handle(b, b.conns[e.conn].peer, e.frame.message.value), c, t)
       <==> SubscribedBy(b, e, c, t, Lists(b, c, t))
  {
    var peer := b.conns[e.conn].peer;
    assert b.conns[c].peer in RegisteredPeers(b.conns) && peer in RegisteredPeers(b.conns);
    HandleLists(b, peer, e.frame.message.value, t);
  }

  /** Without acting, an event of another connection touches neither the phase nor the list of `c`. */
  lemma {:induction false} OtherLists(config: Config, b: Bridge, e: Event, c: nat, t: string)
    requires PeersDistinct(b.conns, b.nextPeer) && (e.Accept? || e.conn != c) && !ActsOn(b, e)
    requires c in Step(config, b, e).conns && IsRegistered(Step(config, b, e).conns[c])
    ensures c in b.conns && b.conns[c] == Step(config, b, e).conns[c]
    ensures Lists(Step(config, b, e), c, t) <==> Lists(b, c, t)
  {
    StepShape(config, b, e);
  }

  /** Without acting, a connection is registered with a fresh list or keeps its own. */
  lemma OwnLists(config: Config, b: Bridge, e: Event, c: nat, t: string)
    requires !e.Accept? && e.conn == c && !ActsOn(b, e)
    requires c in Step(config, b, e).conns && IsRegistered(Step(config, b, e).conns[c])
    ensures c in b.conns && (IsRegistered(b.conns[c]) || Fresh(b, e, c))
    ensures Lists(Step(config, b, e), c, t) <==> if Fresh(b, e, c) then t == "*" else Lists(b, c, t)
  {
  }

  /** From one step to the next the list of a registered connection follows its requests. */
  lemma {:induction false} StepLists(config: Config, b: Bridge, e: Event, c: nat, t: string)
    requires Inv(config, b) && c in Step(config, b, e).conns && IsRegistered(Step(config, b, e).conns[c])
    ensures Lists(Step(config, b, e), c, t) <==> SubscribedBy(b, e, c, t, Lists(b, c, t))
    ensures c in b.conns && (IsRegistered(b.conns[c]) || Fresh(b, e, c))
  {
    if ActsOn(b, e) {
      ActingLists(b, e, c, t);
    } else if e.Accept? || e.conn != c {
      OtherLists(config, b, e, c, t);
    } else {
      OwnLists(config, b, e, c, t);
    }
  }

  /**
   In every interleaving a registered connection's list holds exactly the topics it has
   asked for: "*" from its registration on, what it subscribed to, without what it
   unsubscribed from since.
   */
  lemma {:induction false} ListsAreRequests(config: Config, events: seq<Event>, c: nat, t: string)
    requires c in Run(config, events).conns && IsRegistered(Run(config, events).conns[c])
    ensures Lists(Run(config, events), c, t) <==> Subscribed(config, events, c, t)
    decreases |events|
  {
    var (front, e) := (events[..|events| - 1], events[|events| - 1]);
    var b := Run(config, front);
    RunKeeps(config, front);
    StepLists(config, b, e, c, t);
    if IsRegistered(b.conns[c]) {
      ListsAreRequests(config, front, c, t);
    }
  }
}
