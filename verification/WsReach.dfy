/**
 What the bridge can still do after any run: the token decides who is let in, a client with the
 secret can always get its publication through while there is room, and every connection can be
 taken down to nothing.
 */
module WsReach {
  import opened Sequences
  import opened Wrappers
  import opened WsBridge

  lemma RunSnoc(config: Config, events: seq<Event>, e: Event)
    ensures Run(config, events + [e]) == Step(config, Run(config, events), e)
  {
    assert (events + [e])[..|events|] == events;
  }

  // ------------------------------------------------------------------------------- the token

  ghost predicate CarriesSecret(config: Config, frame: Frame) {
    frame.token.Some? && EffectiveSecret(config) == Some(frame.token.value)
  }

  /**
   After every run, the first text frame of a connection decides: with exactly the secret as its
   token the connection is authenticated, with anything else it is put out; the frame has no
   other effect.
   */
  lemma {:induction false} TokenDecides(config: Config, events: seq<Event>, c: nat, peer: nat, frame: Frame)
    requires c in Run(config, events).conns && Run(config, events).conns[c] == Serving(peer, false)
    ensures Run(config, events + [Receive(c, frame)]) ==
            Move(Run(config, events), c, if CarriesSecret(config, frame) then Serving(peer, true) else Leaving(peer))
  {
    RunSnoc(config, events, Receive(c, frame));
    if frame.token.Some? && EffectiveSecret(config).Some? {
      TokensCompare(frame.token.value, EffectiveSecret(config).value);
    }
  }

  // ------------------------------------------------------------------------------ publishing

  /** What a client with the secret does to publish `message` as connection `c`. */
  function Publishing(config: Config, c: nat, message: ClientMessage): seq<Event> {
    [Accept] + [Begin(c, true)] + [Count(c)] + [Register(c)]
    + [Receive(c, Frame(EffectiveSecret(config), None))] + [Receive(c, Frame(None, Some(message)))]
  }

  ghost predicate Open(config: Config) {
    EffectiveSecret(config).Some? || config.access == Allow
  }

  /** Connection `c` stands at `phase`, and `published` is what the bus has received. */
  ghost predicate Stands(b: Bridge, c: nat, phase: Phase, published: seq<ClientMessage>) {
    c in b.conns && b.conns[c] == phase && b.published == published
  }

  lemma Counts(config: Config, events: seq<Event>, c: nat, published: seq<ClientMessage>) returns (peer: nat)
    requires Open(config) && Stands(Run(config, events), c, Spawned, published)
    ensures Stands(Run(config, events + [Begin(c, true)] + [Count(c)]), c, Counted(peer), published)
  {
    peer := Run(config, events).nextPeer;
    RunSnoc(config, events, Begin(c, true));
    assert Stands(Run(config, events + [Begin(c, true)]), c, Shaken(peer), published);
    RunSnoc(config, events + [Begin(c, true)], Count(c));
  }

  /** A counted connection that sends the secret is served. */
  lemma {:induction false} Authenticates(config: Config, events: seq<Event>, c: nat, peer: nat,
                                         published: seq<ClientMessage>)
    requires Stands(Run(config, events), c, Counted(peer), published)
    ensures Stands(Run(config, events + [Register(c)] + [Receive(c, Frame(EffectiveSecret(config), None))]),
                   c, Serving(peer, true), published)
  {
    var token := Receive(c, Frame(EffectiveSecret(config), None));
    var registered := events + [Register(c)];
    RunSnoc(config, events, Register(c));
    assert Stands(Run(config, registered), c, Serving(peer, EffectiveSecret(config).None?), published);
    if EffectiveSecret(config).Some? {
      TokenDecides(config, registered, c, peer, token.frame);
    } else {
      RunSnoc(config, registered, token);
    }
  }

  /** What a connection that is served publishes reaches the bus. */
  lemma {:induction false} PublicationArrives(config: Config, events: seq<Event>, c: nat, peer: nat,
                                              message: ClientMessage)
    requires Served(Run(config, events), c, peer) && message.Publish?
    ensures Run(config, events + [Receive(c, Frame(None, Some(message)))]).published ==
            Run(config, events).published + [message]
  {
    RunSnoc(config, events, Receive(c, Frame(None, Some(message))));
  }

  lemma PublishingEvents(config: Config, events: seq<Event>, c: nat, message: ClientMessage)
    ensures events + Publishing(config, c, message) ==
            events + [Accept] + [Begin(c, true)] + [Count(c)] + [Register(c)]
            + [Receive(c, Frame(EffectiveSecret(config), None))] + [Receive(c, Frame(None, Some(message)))]
  {
  }

  /**
   After every run that leaves room for one more connection, whoever has the secret, or anyone
   where unauthenticated access is allowed, can publish anything.
   */
  lemma {:induction false} SecretHolderPublishes(config: Config, events: seq<Event>, topic: string, payload: string)
    requires Open(config) && Run(config, events).permits < config.maxConnections
    ensures Run(config, events + Publishing(config, Run(config, events).nextConn, Publish(topic, payload))).published ==
            Run(config, events).published + [Publish(topic, payload)]
  {
    var (c, published) := (Run(config, events).nextConn, Run(config, events).published);
    RunSnoc(config, events, Accept);
    assert Stands(Run(config, events + [Accept]), c, Spawned, published);
    var peer := Counts(config, events + [Accept], c, published);
    var counted := events + [Accept] + [Begin(c, true)] + [Count(c)];
    Authenticates(config, counted, c, peer, published);
    var served := counted + [Register(c)] + [Receive(c, Frame(EffectiveSecret(config), None))];
    PublicationArrives(config, served, c, peer, Publish(topic, payload));
    PublishingEvents(config, events, c, Publish(topic, payload));
  }

  /** Something was published only if the bridge is open and has room for a connection. */
  lemma {:induction false} PublishedNeedsOpen(config: Config, events: seq<Event>)
    requires Run(config, events).published != []
    ensures Open(config) && config.maxConnections > 0
  {
    var (front, e) := (events[..|events| - 1], events[|events| - 1]);
    StepPublishes(config, Run(config, front), e);
    if Run(config, front).published != [] {
      PublishedNeedsOpen(config, front);
    } else {
      RunAdmits(config, front, e.conn);
      RunKeeps(config, front);
      assert e.conn in Run(config, front).conns.Keys;
    }
  }

  /** Whether anything can ever be published depends on the configuration in exactly this way. */
  lemma PublishableIffOpen(config: Config)
    ensures (exists events :: Run(config, events).published != []) <==> Open(config) && config.maxConnections > 0
  {
    if events :| Run(config, events).published != [] {
      PublishedNeedsOpen(config, events);
    }
    if Open(config) && config.maxConnections > 0 {
      SecretHolderPublishes(config, [], "", "");
      assert Run(config, [] + Publishing(config, 0, Publish("", ""))).published != [];
    }
  }

  // -------------------------------------------------------------------------- subscriptions

  /** The positions of the other topics. */
  ghost function Others(topics: seq<string>, topic: string): set<nat> {
    set i: nat | i < |topics| && topics[i] != topic
  }

  lemma {:induction false} RetainSelects(topics: seq<string>, topic: string)
    ensures Selects(topics, Others(topics, topic), Retain(topics, topic))
  {
    if topics == [] {
      SelectsNothing(topics);
      assert Others(topics, topic) == {};
    } else {
      var (front, last) := (topics[..|topics| - 1], topics[|topics| - 1]);
      RetainSelects(front, topic);
      RetainSnoc(front, last, topic);
      assert front + [last] == topics;
      if last != topic {
        assert Others(topics, topic) == Others(front, topic) + {|front|};
        SelectsTaking(front, Others(front, topic), Retain(front, topic), last,
                      Others(topics, topic), Retain(topics, topic));
      } else {
        assert Others(topics, topic) == Others(front, topic);
        SelectsSkipping(front, Others(front, topic), Retain(front, topic), last, Others(topics, topic));
      }
    }
  }

  lemma {:induction false} RetainSnoc(topics: seq<string>, last: string, topic: string)
    ensures Retain(topics + [last], topic) == Retain(topics, topic) + if last != topic then [last] else []
  {
    if topics == [] {
      assert topics + [last] == [last] && [last][1..] == [];
    } else {
      assert (topics + [last])[1..] == topics[1..] + [last];
      RetainSnoc(topics[1..], last, topic);
    }
  }

  /** Connection `c` is authenticated as `peer`. */
  ghost predicate Served(b: Bridge, c: nat, peer: nat) {
    c in b.conns && b.conns[c] == Serving(peer, true)
  }

  lemma {:induction false} ServedIsListed(config: Config, events: seq<Event>, c: nat, peer: nat)
    requires Served(Run(config, events), c, peer)
    ensures peer in Run(config, events).subscriptions
  {
    RunKeeps(config, events);
    assert IsRegistered(Run(config, events).conns[c]);
    assert peer in RegisteredPeers(Run(config, events).conns);
  }

  lemma StepSubscribes(config: Config, b: Bridge, c: nat, peer: nat, t: string)
    requires Served(b, c, peer) && peer in b.subscriptions
    ensures Step(config, b, Receive(c, Frame(None, Some(Subscribe(t))))).subscriptions ==
            if t in b.subscriptions[peer] then b.subscriptions
            else b.subscriptions[peer := b.subscriptions[peer] + [t]]
    ensures Step(config, b, Receive(c, Frame(None, Some(Unsubscribe(t))))).subscriptions ==
            b.subscriptions[peer := Retain(b.subscriptions[peer], t)]
  {
  }

  /** After every run, a subscription of an authenticated connection puts a new topic at the end of its own list. */
  lemma {:induction false} SubscribingAppends(config: Config, events: seq<Event>, c: nat, peer: nat, t: string)
    requires Served(Run(config, events), c, peer)
    ensures peer in Run(config, events).subscriptions
    ensures Run(config, events + [Receive(c, Frame(None, Some(Subscribe(t))))]).subscriptions ==
            var before := Run(config, events).subscriptions;
            if t in before[peer] then before else before[peer := before[peer] + [t]]
  {
    ServedIsListed(config, events, c, peer);
    RunSnoc(config, events, Receive(c, Frame(None, Some(Subscribe(t)))));
    StepSubscribes(config, Run(config, events), c, peer, t);
  }

  /** And unsubscribing takes the topic out of its own list and keeps the others in order. */
  lemma UnsubscribingRemoves(config: Config, events: seq<Event>, c: nat, peer: nat, t: string)
    returns (list: seq<string>)
    requires Served(Run(config, events), c, peer)
    ensures peer in Run(config, events).subscriptions
    ensures var before := Run(config, events).subscriptions[peer]; Selects(before, Others(before, t), list)
    ensures Run(config, events + [Receive(c, Frame(None, Some(Unsubscribe(t))))]).subscriptions ==
            Run(config, events).subscriptions[peer := list]
  {
    ServedIsListed(config, events, c, peer);
    list := Retain(Run(config, events).subscriptions[peer], t);
    RetainSelects(Run(config, events).subscriptions[peer], t);
    RunSnoc(config, events, Receive(c, Frame(None, Some(Unsubscribe(t)))));
    StepSubscribes(config, Run(config, events), c, peer, t);
  }

  // -------------------------------------------------------------------------------- draining

  /** The event that takes a connection on towards its end. */
  function Onward(c: nat, phase: Phase): Event {
    match phase
    case Spawned => Begin(c, false)
    case Shaken(_) => Count(c)
    case Counted(_) => Register(c)
    case Serving(_, _) => Disconnect(c)
    case Leaving(_) => Unregister(c)
    case Unregistered(_) => Uncount(c)
    case Finished => Release(c)
  }

  /** How many such events are left. */
  function Remaining(phase: Phase): nat {
    match phase
    case Spawned => 2
    case Shaken(_) => 6
    case Counted(_) => 5
    case Serving(_, _) => 4
    case Leaving(_) => 3
    case Unregistered(_) => 2
    case Finished => 1
  }

  lemma {:induction false} OnwardStep(config: Config, b: Bridge, c: nat)
    requires c in b.conns
    ensures var b' := Step(config, b, Onward(c, b.conns[c]));
      && b'.conns.Keys == (if b.conns[c].Finished? then b.conns.Keys - {c} else b.conns.Keys)
      && (c in b'.conns ==> Remaining(b'.conns[c]) < Remaining(b.conns[c]))
  {
  }

  /** Any one connection can be taken down, and no other goes or comes. */
  lemma {:induction false} ConnectionEnds(config: Config, events: seq<Event>, c: nat) returns (after: seq<Event>)
    requires c in Run(config, events).conns
    ensures events <= after && Run(config, after).conns.Keys == Run(config, events).conns.Keys - {c}
    decreases Remaining(Run(config, events).conns[c])
  {
    var e := Onward(c, Run(config, events).conns[c]);
    RunSnoc(config, events, e);
    OnwardStep(config, Run(config, events), c);
    after := events + [e];
    if c in Run(config, after).conns {
      after := ConnectionEnds(config, after, c);
    }
  }

  lemma {:induction false} NothingLeft(config: Config, events: seq<Event>)
    requires Run(config, events).conns == map[]
    ensures Run(config, events).permits == 0 && Run(config, events).connected == 0
    ensures Run(config, events).subscriptions == map[]
  {
    RunKeeps(config, events);
    assert CountedConns(map[]) == {};
    assert RegisteredPeers(map[]) == {};
    assert Run(config, events).subscriptions.Keys == {};
  }

  /** Every run can be continued until no connection is left; all permits are then back, the client
      counter is zero and the table is empty. */
  lemma {:induction false} EveryRunDrains(config: Config, events: seq<Event>) returns (after: seq<Event>)
    ensures events <= after && Run(config, after).conns == map[] && Run(config, after).permits == 0
    ensures Run(config, after).connected == 0 && Run(config, after).subscriptions == map[]
    decreases |Run(config, events).conns.Keys|
  {
    var conns := Run(config, events).conns;
    after := events;
    if conns.Keys != {} {
      var c :| c in conns.Keys;
      after := ConnectionEnds(config, events, c);
      assert |conns.Keys - {c}| < |conns.Keys|;
      after := EveryRunDrains(config, after);
    } else {
      assert conns == map[];
      NothingLeft(config, after);
    }
  }
}
