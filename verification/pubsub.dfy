/**
 * The publish/subscribe registry of the server (pubsub.c).
 *
 * Two indexes describe who listens to what and must agree with each other:
 * every client keeps the set of channels it subscribed to (a dict used as a
 * set) and the list of its patterns, while the server keeps, per channel,
 * the list of subscribed clients and one global list of (client, pattern)
 * pairs. Clients are identified by a number; channel names and patterns are
 * strings. Replies to the client and reference counting are not modelled.
 */
module PubSub {
  import opened Common

  /** A client, identified by a number (the C code uses the client's address). */
  type ClientId = nat

  /** A channel name or a glob-style pattern. */
  type Name = string

  /** An entry of the server's pattern list (`pubsubPattern`). */
  datatype PatternSub = PatternSub(client: ClientId, pattern: Name)

  /** The channels of client `c` in the per-client index (none when the client has no entry). */
  function ChannelsOf(cc: map<ClientId, set<Name>>, c: ClientId): set<Name>
  {
    if c in cc then cc[c] else {}
  }

  /** The patterns of client `c` in the per-client index. */
  function PatternsOf(cp: map<ClientId, seq<Name>>, c: ClientId): seq<Name>
  {
    if c in cp then cp[c] else []
  }

  /** The clients listed by the server for `channel` (none when the channel has no entry). */
  function Listeners(sc: map<Name, seq<ClientId>>, channel: Name): seq<ClientId>
  {
    if channel in sc then sc[channel] else []
  }

  /**
   * The two channel indexes agree: `channel` is among the channels of `c`
   * exactly when `c` is on the server's list for `channel`; server lists are
   * never empty and hold each client once.
   */
  ghost predicate ChannelsAgree(cc: map<ClientId, set<Name>>, sc: map<Name, seq<ClientId>>)
  {
    && (forall channel :: channel in sc ==> sc[channel] != [] && NoDup(sc[channel]))
    && (forall c, channel :: channel in ChannelsOf(cc, c) <==> c in Listeners(sc, channel))
  }

  /** The two pattern indexes agree: `p` is a pattern of `c` exactly when the pair is on the server's list. */
  ghost predicate PatternsAgree(cp: map<ClientId, seq<Name>>, sp: seq<PatternSub>)
  {
    && NoDup(sp)
    && (forall c :: NoDup(PatternsOf(cp, c)))
    && (forall c, p :: p in PatternsOf(cp, c) <==> PatternSub(c, p) in sp)
  }

  /** How many pairs of the pattern list have a pattern that `matches` the channel. */
  function CountMatching(sp: seq<PatternSub>, channel: Name, matches: (Name, Name) -> bool): (n: nat)
    ensures n <= |sp|
  {
    if sp == [] then 0
    else CountMatching(sp[..|sp| - 1], channel, matches) + (if matches(sp[|sp| - 1].pattern, channel) then 1 else 0)
  }

  /** The clients whose own channel set contains `channel`. */
  function Subscribers(cc: map<ClientId, set<Name>>, channel: Name): set<ClientId>
  {
    set c | c in cc && channel in cc[c]
  }

  /**
   * When the indexes agree, the server's list for a channel holds exactly the
   * clients that subscribed to it, so its length is their number.
   */
  lemma ListenersAreSubscribers(cc: map<ClientId, set<Name>>, sc: map<Name, seq<ClientId>>, channel: Name)
    requires ChannelsAgree(cc, sc)
    ensures |Listeners(sc, channel)| == |Subscribers(cc, channel)|
  {
    var l := Listeners(sc, channel);
    assert NoDup(l) by {
      if channel !in sc {
        assert l == [];
      }
    }
    NoDupCard(l);
    var inList := set x: ClientId | x in l;
    assert |inList| == |l|;
    forall c ensures c in inList <==> c in Subscribers(cc, channel) {
      assert channel in ChannelsOf(cc, c) <==> c in Listeners(sc, channel);
    }
    assert inList == Subscribers(cc, channel);
  }

  /** The server's channel index once `c` is taken off the list of `channel` (the entry goes when it empties). */
  function DropListener(sc: map<Name, seq<ClientId>>, channel: Name, c: ClientId): map<Name, seq<ClientId>>
  {
    var rest := RemoveFirst(Listeners(sc, channel), c);
    if rest == [] then sc - {channel} else sc[channel := rest]
  }

  /** Subscribing a client to a channel it is not on keeps the channel indexes in agreement. */
  lemma SubscribeKeepsAgreement(cc: map<ClientId, set<Name>>, sc: map<Name, seq<ClientId>>, c: ClientId, channel: Name)
    requires ChannelsAgree(cc, sc) && channel !in ChannelsOf(cc, c)
    ensures ChannelsAgree(cc[c := ChannelsOf(cc, c) + {channel}], sc[channel := Listeners(sc, channel) + [c]])
  {
    var cc', sc' := cc[c := ChannelsOf(cc, c) + {channel}], sc[channel := Listeners(sc, channel) + [c]];
    var l := Listeners(sc, channel);
    assert c !in l;
    NoDupAppend(l, c);
    forall d, ch ensures ch in ChannelsOf(cc', d) <==> d in Listeners(sc', ch) {
      assert ch in ChannelsOf(cc, d) <==> d in Listeners(sc, ch);
      if ch == channel {
        assert Listeners(sc', ch) == l + [c];
      }
    }
  }

  /** Taking a client off a channel it is on keeps the channel indexes in agreement. */
  lemma UnsubscribeKeepsAgreement(cc: map<ClientId, set<Name>>, sc: map<Name, seq<ClientId>>, c: ClientId, channel: Name)
    requires ChannelsAgree(cc, sc) && channel in ChannelsOf(cc, c)
    ensures ChannelsAgree(cc[c := ChannelsOf(cc, c) - {channel}], DropListener(sc, channel, c))
  {
    var cc', sc' := cc[c := ChannelsOf(cc, c) - {channel}], DropListener(sc, channel, c);
    var l := Listeners(sc, channel);
    RemoveFirstNoDup(l, c);
    forall d, ch ensures ch in ChannelsOf(cc', d) <==> d in Listeners(sc', ch) {
      assert ch in ChannelsOf(cc, d) <==> d in Listeners(sc, ch);
      if ch == channel {
        assert Listeners(sc', ch) == RemoveFirst(l, c);
      } else {
        assert Listeners(sc', ch) == Listeners(sc, ch);
      }
    }
  }

  /** Adding a pattern a client does not have keeps the pattern indexes in agreement. */
  lemma SubscribePatternKeepsAgreement(cp: map<ClientId, seq<Name>>, sp: seq<PatternSub>, c: ClientId, pattern: Name)
    requires PatternsAgree(cp, sp) && pattern !in PatternsOf(cp, c)
    ensures PatternsAgree(cp[c := PatternsOf(cp, c) + [pattern]], sp + [PatternSub(c, pattern)])
  {
    var mine := PatternsOf(cp, c);
    var cp' := cp[c := mine + [pattern]];
    NoDupAppend(mine, pattern);
    NoDupAppend(sp, PatternSub(c, pattern));
    forall d ensures NoDup(PatternsOf(cp', d)) {
      if d != c {
        assert PatternsOf(cp', d) == PatternsOf(cp, d);
      }
    }
    forall d, p ensures p in PatternsOf(cp', d) <==> PatternSub(d, p) in sp + [PatternSub(c, pattern)] {
      if d != c {
        assert PatternsOf(cp', d) == PatternsOf(cp, d);
      }
    }
  }

  /** Removing a pattern a client has keeps the pattern indexes in agreement. */
  lemma UnsubscribePatternKeepsAgreement(cp: map<ClientId, seq<Name>>, sp: seq<PatternSub>, c: ClientId, pattern: Name)
    requires PatternsAgree(cp, sp) && pattern in PatternsOf(cp, c)
    ensures PatternsAgree(cp[c := RemoveFirst(PatternsOf(cp, c), pattern)], RemoveFirst(sp, PatternSub(c, pattern)))
  {
    var mine := PatternsOf(cp, c);
    var cp' := cp[c := RemoveFirst(mine, pattern)];
    RemoveFirstNoDup(mine, pattern);
    RemoveFirstNoDup(sp, PatternSub(c, pattern));
    forall d ensures NoDup(PatternsOf(cp', d)) {
      if d != c {
        assert PatternsOf(cp', d) == PatternsOf(cp, d);
      }
    }
    forall d, p ensures p in PatternsOf(cp', d) <==> PatternSub(d, p) in RemoveFirst(sp, PatternSub(c, pattern)) {
      if d != c {
        assert PatternsOf(cp', d) == PatternsOf(cp, d);
      }
    }
  }

  /** The server-wide registry together with the subscription state of every client. */
  class Registry {
    /** `c->pubsub_channels` of every client. */
    var clientChannels: map<ClientId, set<Name>>
    /** `c->pubsub_patterns` of every client. */
    var clientPatterns: map<ClientId, seq<Name>>
    /** `server.pubsub_channels`: channel to the list of its subscribers. */
    var channels: map<Name, seq<ClientId>>
    /** `server.pubsub_patterns`. */
    var patterns: seq<PatternSub>

    ghost predicate Valid()
      reads this
    {
      ChannelsAgree(clientChannels, channels) && PatternsAgree(clientPatterns, patterns)
    }

    /** A server without subscriptions. */
    constructor ()
      ensures Valid()
      ensures forall c :: ChannelsOf(clientChannels, c) == {} && PatternsOf(clientPatterns, c) == []
      ensures channels == map[] && patterns == []
    {
      clientChannels, clientPatterns, channels, patterns := map[], map[], map[], [];
    }

    /**
     * `pubsubSubscribeChannel`: 1 when the channel is new for the client, which
     * is then appended to the channel's server list (created for the first
     * subscriber); 0 and no change otherwise.
     */
    method SubscribeChannel(c: ClientId, channel: Name) returns (r: int)
      requires Valid()
      modifies this
      ensures Valid()
      ensures r == (if channel in ChannelsOf(old(clientChannels), c) then 0 else 1)
      ensures r == 0 ==> clientChannels == old(clientChannels) && channels == old(channels)
      ensures r == 1 ==>
        && ChannelsOf(clientChannels, c) == ChannelsOf(old(clientChannels), c) + {channel}
        && Listeners(channels, channel) == Listeners(old(channels), channel) + [c]
      ensures forall d :: d != c ==> ChannelsOf(clientChannels, d) == ChannelsOf(old(clientChannels), d)
      ensures forall ch :: ch != channel ==> Listeners(channels, ch) == Listeners(old(channels), ch)
      ensures clientPatterns == old(clientPatterns) && patterns == old(patterns)
    {
      r := 0;
      if channel !in ChannelsOf(clientChannels, c) {
        r := 1;
        SubscribeKeepsAgreement(clientChannels, channels, c, channel);
        clientChannels := clientChannels[c := ChannelsOf(clientChannels, c) + {channel}];
        var clients := [];
        if channel in channels {
          clients := channels[channel];
        }
        channels := channels[channel := clients + [c]];
      }
    }

    /**
     * `pubsubUnsubscribeChannel`: 1 when the client was subscribed; the
     * channel leaves its set, the client leaves the channel's server list,
     * and the channel's server entry goes once its list is empty.
     */
    method UnsubscribeChannel(c: ClientId, channel: Name) returns (r: int)
      requires Valid()
      modifies this
      ensures Valid()
      ensures r == (if channel in ChannelsOf(old(clientChannels), c) then 1 else 0)
      ensures r == 0 ==> clientChannels == old(clientChannels) && channels == old(channels)
      ensures ChannelsOf(clientChannels, c) == ChannelsOf(old(clientChannels), c) - {channel}
      ensures Listeners(channels, channel) == RemoveFirst(Listeners(old(channels), channel), c)
      ensures channel in channels <==> Listeners(channels, channel) != []
      ensures forall d :: d != c ==> ChannelsOf(clientChannels, d) == ChannelsOf(old(clientChannels), d)
      ensures forall ch :: ch != channel ==> Listeners(channels, ch) == Listeners(old(channels), ch)
      ensures clientPatterns == old(clientPatterns) && patterns == old(patterns)
    {
      r := 0;
      if channel in ChannelsOf(clientChannels, c) {
        r := 1;
        UnsubscribeKeepsAgreement(clientChannels, channels, c, channel);
        clientChannels := clientChannels[c := ChannelsOf(clientChannels, c) - {channel}];
        var clients := channels[channel];
        clients := RemoveFirst(clients, c);
        if |clients| == 0 {
          channels := channels - {channel};
        } else {
          channels := channels[channel := clients];
        }
      }
    }

    /**
     * `pubsubSubscribePattern`: 1 when the client did not have the pattern,
     * which is then appended to its list and, paired with the client, to the
     * server's list; 0 and no change otherwise.
     */
    method SubscribePattern(c: ClientId, pattern: Name) returns (r: int)
      requires Valid()
      modifies this
      ensures Valid()
      ensures r == (if pattern in PatternsOf(old(clientPatterns), c) then 0 else 1)
      ensures r == 0 ==> clientPatterns == old(clientPatterns) && patterns == old(patterns)
      ensures r == 1 ==>
        && PatternsOf(clientPatterns, c) == PatternsOf(old(clientPatterns), c) + [pattern]
        && patterns == old(patterns) + [PatternSub(c, pattern)]
      ensures forall d :: d != c ==> PatternsOf(clientPatterns, d) == PatternsOf(old(clientPatterns), d)
      ensures clientChannels == old(clientChannels) && channels == old(channels)
    {
      r := 0;
      if pattern !in PatternsOf(clientPatterns, c) {
        r := 1;
        SubscribePatternKeepsAgreement(clientPatterns, patterns, c, pattern);
        clientPatterns := clientPatterns[c := PatternsOf(clientPatterns, c) + [pattern]];
        patterns := patterns + [PatternSub(c, pattern)];
      }
    }

    /**
     * `pubsubUnsubscribePattern`: 1 when the client had the pattern; it leaves
     * the client's list and the (client, pattern) pair leaves the server's list.
     */
    method UnsubscribePattern(c: ClientId, pattern: Name) returns (r: int)
      requires Valid()
      modifies this
      ensures Valid()
      ensures r == (if pattern in PatternsOf(old(clientPatterns), c) then 1 else 0)
      ensures r == 0 ==> clientPatterns == old(clientPatterns) && patterns == old(patterns)
      ensures PatternsOf(clientPatterns, c) == RemoveFirst(PatternsOf(old(clientPatterns), c), pattern)
      ensures patterns == RemoveFirst(old(patterns), PatternSub(c, pattern))
      ensures forall d :: d != c ==> PatternsOf(clientPatterns, d) == PatternsOf(old(clientPatterns), d)
      ensures clientChannels == old(clientChannels) && channels == old(channels)
    {
      r := 0;
      if pattern in PatternsOf(clientPatterns, c) {
        r := 1;
        UnsubscribePatternKeepsAgreement(clientPatterns, patterns, c, pattern);
        clientPatterns := clientPatterns[c := RemoveFirst(PatternsOf(clientPatterns, c), pattern)];
        patterns := RemoveFirst(patterns, PatternSub(c, pattern));
      }
    }

    /**
     * `pubsubUnsubscribeAllChannels`: the client leaves every channel it was
     * on; the result is how many that was.
     */
    method UnsubscribeAllChannels(c: ClientId) returns (count: int)
      requires Valid()
      modifies this
      ensures Valid()
      ensures count == |ChannelsOf(old(clientChannels), c)|
      ensures ChannelsOf(clientChannels, c) == {}
      ensures forall d :: d != c ==> ChannelsOf(clientChannels, d) == ChannelsOf(old(clientChannels), d)
      ensures forall ch :: Listeners(channels, ch) == RemoveFirst(Listeners(old(channels), ch), c)
      ensures clientPatterns == old(clientPatterns) && patterns == old(patterns)
    {
      count := 0;
      var todo := ChannelsOf(clientChannels, c);
      while todo != {}
        invariant Valid()
        invariant ChannelsOf(clientChannels, c) == todo
        invariant count == |ChannelsOf(old(clientChannels), c)| - |todo|
        invariant forall d :: d != c ==> ChannelsOf(clientChannels, d) == ChannelsOf(old(clientChannels), d)
        invariant forall ch :: ch in todo ==> Listeners(channels, ch) == Listeners(old(channels), ch)
        invariant forall ch :: ch !in todo ==> Listeners(channels, ch) == RemoveFirst(Listeners(old(channels), ch), c)
        invariant clientPatterns == old(clientPatterns) && patterns == old(patterns)
        decreases |todo|
      {
        var channel :| channel in todo;
        var r := UnsubscribeChannel(c, channel);
        count := count + r;
        todo := todo - {channel};
      }
      forall ch ensures Listeners(channels, ch) == RemoveFirst(Listeners(old(channels), ch), c) {
      }
    }

    /**
     * `pubsubUnsubscribeAllPatterns`: the client drops every pattern it had,
     * walking its list from the head; the result is how many that was.
     */
    method UnsubscribeAllPatterns(c: ClientId) returns (count: int)
      requires Valid()
      modifies this
      ensures Valid()
      ensures count == |PatternsOf(old(clientPatterns), c)|
      ensures PatternsOf(clientPatterns, c) == []
      ensures forall d :: d != c ==> PatternsOf(clientPatterns, d) == PatternsOf(old(clientPatterns), d)
      ensures forall x :: x in patterns <==> x in old(patterns) && x.client != c
      ensures clientChannels == old(clientChannels) && channels == old(channels)
    {
      count := 0;
      var mine := PatternsOf(clientPatterns, c);
      var i := 0;
      while i < |mine|
        invariant Valid()
        invariant i <= |mine| && PatternsOf(clientPatterns, c) == mine[i..]
        invariant count == i
        invariant forall d :: d != c ==> PatternsOf(clientPatterns, d) == PatternsOf(old(clientPatterns), d)
        invariant forall x :: x in patterns <==> x in old(patterns) && (x.client != c || x.pattern in mine[i..])
        invariant clientChannels == old(clientChannels) && channels == old(channels)
      {
        var r := UnsubscribePattern(c, mine[i]);
        assert mine[i..] == [mine[i]] + mine[i + 1..];
        count := count + r;
        i := i + 1;
      }
    }

    /**
     * `pubsubPublishMessage`: the number of receivers, one per subscriber of
     * the channel and one per pattern pair whose pattern matches the channel
     * (`matches` stands for `stringmatchlen`). Delivering the message is not
     * modelled.
     */
    method PublishMessage(channel: Name, matches: (Name, Name) -> bool) returns (receivers: nat)
      requires Valid()
      ensures receivers == |Subscribers(clientChannels, channel)| + CountMatching(patterns, channel, matches)
    {
      receivers := 0;
      if channel in channels {
        var list := channels[channel];
        var i := 0;
        while i < |list|
          invariant i <= |list| && receivers == i
        {
          receivers := receivers + 1;
          i := i + 1;
        }
      }
      ListenersAreSubscribers(clientChannels, channels, channel);
      ghost var base := receivers;
      if |patterns| != 0 {
        var i := 0;
        while i < |patterns|
          invariant i <= |patterns|
          invariant receivers == base + CountMatching(patterns[..i], channel, matches)
        {
          assert patterns[..i + 1][..i] == patterns[..i];
          if matches(patterns[i].pattern, channel) {
            receivers := receivers + 1;
          }
          i := i + 1;
        }
        assert patterns[..i] == patterns;
      }
    }
  }
}
