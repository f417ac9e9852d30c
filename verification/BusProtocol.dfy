/**
 The in-process publish/subscribe bus as a protocol of atomic steps: every locked section, every
 channel send and every channel receive is one step, and steps of concurrent publishers,
 subscribers and delivery loops interleave freely.
 */
module BusProtocol {
  import opened Wrappers

  // A subscriber is named by its position in the order of creation.
  type SubId = nat

  // Queued, handled and enqueued events are named by the number of the publish they belong to.
  datatype Channel = Channel(
    filter: string,
    open: bool,
    queue: seq<nat>,
    inHand: Option<nat>,  // received by the delivery loop, not yet passed to the handler
    busy: bool,           // the handler is running
    handled: seq<nat>,    // passed to the handler
    enqueued: seq<nat>)

  // A publish from the moment it holds the read lock: the subscribers it still has to visit.
  datatype Publication = Publication(topic: string, holding: bool, todo: seq<SubId>, matched: nat)

  datatype State = State(
    subs: map<string, seq<SubId>>,
    channels: seq<Channel>,
    pubs: seq<Publication>,
    waiting: nat,   // publishes counted but not yet past the dedup check and the lock
    skipped: nat,   // publishes ended by the dedup check
    published: nat,
    delivered: nat,
    dropped: nat,
    panicked: bool) // a send on a closed channel or a second close

  const DEFAULT_BUFFER: nat := 100
  const WILDCARD_BUFFER: nat := 1000

  function Capacity(filter: string): nat {
    if filter == "*" then WILDCARD_BUFFER else DEFAULT_BUFFER
  }

  function TopicMatches(sub: string, event: string): bool {
    if sub == "*" then true
    else if sub == event then true
    else if |sub| >= 2 && sub[|sub| - 2..] == ".*" then sub[..|sub| - 2] <= event
    else if "*." <= sub then |event| >= |sub| - 2 && event[|event| - (|sub| - 2)..] == sub[2..]
    else false
  }

  // A pattern ending in ".*" admits every topic that starts with the text before the dot.  The documented
  // reading keeps the dot; the two differ exactly on topics that start with the text but not the dot.
  lemma SuffixPattern(prefix: string, event: string)
    ensures TopicMatches(prefix + ".*", event) <==> prefix <= event
    ensures (TopicMatches(prefix + ".*", event) <==> prefix + "." <= event) <==>
      !(prefix <= event) || (|prefix| < |event| && event[|prefix|] == '.')
  {
    var sub := prefix + ".*";
    assert sub[|sub| - 2..] == ".*" && sub[..|sub| - 2] == prefix;
    assert sub == event ==> prefix <= event;
  }

  // A pattern starting with "*." admits every topic that ends with the text after the dot.
  lemma PrefixPattern(suffix: string, event: string)
    requires |suffix| < 2 || suffix[|suffix| - 2..] != ".*"
    requires suffix != "*"
    ensures TopicMatches("*." + suffix, event) <==>
      |event| >= |suffix| && event[|event| - |suffix|..] == suffix
  {
    var sub := "*." + suffix;
    assert sub[2..] == suffix;
    assert |suffix| >= 2 ==> sub[|sub| - 2..] == suffix[|suffix| - 2..];
  }

  // ---------- steps ----------

  datatype Action =
    | Subscribe(topic: string)
    | Unsubscribe(id: SubId)
    | Count                                     // Publish: the published counter
    | Skip                                      // Publish: dedup ends it
    | Lock(topic: string, order: seq<string>)   // Publish: read lock; the map yields its keys in any order
    | Send(pub: nat)                            // Publish: one non-blocking channel send
    | Unlock(pub: nat)                          // Publish: nothing left to visit
    | Take(id: SubId)                           // deliver: receive the next event from the channel
    | Handle(id: SubId)                         // deliver: call the handler with the event in hand
    | Return(id: SubId)                         // deliver: the handler returns

  predicate Distinct<T(==)>(xs: seq<T>) {
    forall i, j :: 0 <= i < j < |xs| ==> xs[i] != xs[j]
  }

  // The keys of the subscription map that match the topic, each once.
  predicate IsOrder(subs: map<string, seq<SubId>>, topic: string, order: seq<string>) {
    && Distinct(order)
    && (forall k :: k in order ==> k in subs && TopicMatches(k, topic))
    && (forall k :: k in subs && TopicMatches(k, topic) ==> k in order)
  }

  function Flatten(subs: map<string, seq<SubId>>, order: seq<string>): seq<SubId>
    requires forall k :: k in order ==> k in subs
  {
    if order == [] then [] else Flatten(subs, order[..|order| - 1]) + subs[order[|order| - 1]]
  }

  predicate NoReader(s: State) {
    forall i :: 0 <= i < |s.pubs| ==> !s.pubs[i].holding
  }

  // Take a subscriber out of its list; the others keep their order.
  function Remove(ids: seq<SubId>, id: SubId): seq<SubId> {
    if ids == [] then []
    else if ids[0] == id then ids[1..]
    else [ids[0]] + Remove(ids[1..], id)
  }

  function Listed(subs: map<string, seq<SubId>>, topic: string): seq<SubId> {
    if topic in subs then subs[topic] else []
  }

  function NewChannel(filter: string): Channel {
    Channel(filter, true, [], None, false, [], [])
  }

  function Step(s: State, a: Action): Option<State> {
    match a
    case Subscribe(topic) =>
      if topic == "" || !NoReader(s) then None
      else Some(s.(subs := s.subs[topic := Listed(s.subs, topic) + [|s.channels|]],
                   channels := s.channels + [NewChannel(topic)]))
    case Unsubscribe(id) =>
      if id >= |s.channels| || !NoReader(s) then None
      else
        var c := s.channels[id];
        if id !in Listed(s.subs, c.filter) then Some(s)
        else Some(s.(subs := s.subs[c.filter := Remove(s.subs[c.filter], id)],
                     channels := s.channels[id := c.(open := false)],
                     panicked := s.panicked || !c.open))
    case Count => Some(s.(published := s.published + 1, waiting := s.waiting + 1))
    case Skip =>
      if s.waiting == 0 then None else Some(s.(waiting := s.waiting - 1, skipped := s.skipped + 1))
    case Lock(topic, order) =>
      if s.waiting == 0 || !IsOrder(s.subs, topic, order) then None
      else
        var todo := Flatten(s.subs, order);
        Some(s.(waiting := s.waiting - 1, pubs := s.pubs + [Publication(topic, true, todo, |todo|)]))
    case Send(p) =>
      if p >= |s.pubs| || s.pubs[p].todo == [] || s.pubs[p].todo[0] >= |s.channels| then None
      else
        var pub := s.pubs[p];
        var id := pub.todo[0];
        var c := s.channels[id];
        var pubs := s.pubs[p := pub.(todo := pub.todo[1..])];
        if !c.open then Some(s.(panicked := true))
        else if |c.queue| < Capacity(c.filter) then
          Some(s.(pubs := pubs, delivered := s.delivered + 1,
                  channels := s.channels[id := c.(queue := c.queue + [p], enqueued := c.enqueued + [p])]))
        else Some(s.(pubs := pubs, dropped := s.dropped + 1))
    case Unlock(p) =>
      if p >= |s.pubs| || s.pubs[p].todo != [] || !s.pubs[p].holding then None
      else Some(s.(pubs := s.pubs[p := s.pubs[p].(holding := false)]))
    case Take(id) =>
      if id >= |s.channels| || s.channels[id].queue == [] || s.channels[id].inHand.Some? || s.channels[id].busy
      then None
      else
        var c := s.channels[id];
        Some(s.(channels := s.channels[id := c.(queue := c.queue[1..], inHand := Some(c.queue[0]))]))
    case Handle(id) =>
      if id >= |s.channels| || s.channels[id].inHand.None? then None
      else
        var c := s.channels[id];
        Some(s.(channels := s.channels[id :=
          c.(inHand := None, busy := true, handled := c.handled + [c.inHand.value])]))
    case Return(id) =>
      if id >= |s.channels| || !s.channels[id].busy then None
      else Some(s.(channels := s.channels[id := s.channels[id].(busy := false)]))
  }

  const INITIAL: State := State(map[], [], [], 0, 0, 0, 0, 0, false)

  function RunFrom(s: State, actions: seq<Action>): Option<State> {
    if actions == [] then Some(s)
    else
      match RunFrom(s, actions[..|actions| - 1])
      case None => None
      case Some(t) => Step(t, actions[|actions| - 1])
  }

  lemma RunSnoc(s: State, actions: seq<Action>, a: Action)
    ensures RunFrom(s, actions + [a]) ==
      match RunFrom(s, actions)
      case None => None
      case Some(t) => Step(t, a)
  {
    assert (actions + [a])[..|actions|] == actions;
  }

  lemma {:induction false} RunAppend(s: State, a: seq<Action>, b: seq<Action>)
    ensures RunFrom(s, a + b) ==
      match RunFrom(s, a)
      case None => None
      case Some(t) => RunFrom(t, b)
  {
    if b == [] {
      assert a + b == a;
    } else {
      var init := b[..|b| - 1];
      RunAppend(s, a, init);
      assert a + b == (a + init) + [b[|b| - 1]];
      RunSnoc(s, a + init, b[|b| - 1]);
    }
  }

  // ---------- the invariant ----------

  predicate IsOpen(channels: seq<Channel>, id: SubId, filter: string) {
    id < |channels| && channels[id].open && channels[id].filter == filter
  }

  // A subscriber is in its topic's list, exactly once and nowhere else, if and only if its channel is open.
  ghost predicate Registered(subs: map<string, seq<SubId>>, channels: seq<Channel>) {
    && (forall k :: k in subs ==> Distinct(subs[k]))
    && (forall k, id :: k in subs && id in subs[k] ==> IsOpen(channels, id, k))
    && (forall id :: 0 <= id < |channels| && channels[id].open ==> id in Listed(subs, channels[id].filter))
  }

  // An open channel whose filter matches the topic.
  predicate IsTarget(channels: seq<Channel>, id: SubId, topic: string) {
    id < |channels| && channels[id].open && TopicMatches(channels[id].filter, topic)
  }

  // A publish visits distinct open channels whose filters match, and only while it holds the lock.
  ghost predicate PubOk(channels: seq<Channel>, pub: Publication) {
    && Distinct(pub.todo)
    && (pub.todo != [] ==> pub.holding)
    && (forall id :: id in pub.todo ==> IsTarget(channels, id, pub.topic))
  }

  function Held(c: Channel): seq<nat> {
    if c.inHand.Some? then [c.inHand.value] else []
  }

  // The events handled, in hand and queued are, in this order, the enqueued ones, each once, all
  // matching; the queue is bounded, and nothing is in hand while the handler runs.
  ghost predicate ChannelOk(pubs: seq<Publication>, c: Channel) {
    && c.handled + Held(c) + c.queue == c.enqueued
    && (c.busy ==> c.inHand.None?)
    && |c.queue| <= Capacity(c.filter)
    && Distinct(c.enqueued)
    && (forall p :: p in c.enqueued ==> p < |pubs| && TopicMatches(c.filter, pubs[p].topic))
  }

  // What a publish has still to visit, it has not sent to yet.
  ghost predicate NotYetSent(pubs: seq<Publication>, channels: seq<Channel>) {
    forall p, id :: 0 <= p < |pubs| && id in pubs[p].todo && id < |channels| ==> p !in channels[id].enqueued
  }

  function SumTodo(pubs: seq<Publication>): nat {
    if pubs == [] then 0 else SumTodo(pubs[..|pubs| - 1]) + |pubs[|pubs| - 1].todo|
  }

  function SumMatched(pubs: seq<Publication>): nat {
    if pubs == [] then 0 else SumMatched(pubs[..|pubs| - 1]) + pubs[|pubs| - 1].matched
  }

  function SumEnqueued(channels: seq<Channel>): nat {
    if channels == [] then 0 else SumEnqueued(channels[..|channels| - 1]) + |channels[|channels| - 1].enqueued|
  }

  ghost predicate Balanced(s: State) {
    && s.delivered + s.dropped + SumTodo(s.pubs) == SumMatched(s.pubs)
    && s.delivered == SumEnqueued(s.channels)
    && s.published == s.waiting + s.skipped + |s.pubs|
  }

  ghost predicate Inv(s: State) {
    && !s.panicked
    && Registered(s.subs, s.channels)
    && (forall p :: 0 <= p < |s.pubs| ==> PubOk(s.channels, s.pubs[p]))
    && (forall id :: 0 <= id < |s.channels| ==> ChannelOk(s.pubs, s.channels[id]))
    && NotYetSent(s.pubs, s.channels)
    && Balanced(s)
  }

  // ---------- sums ----------

  lemma {:induction false} SumTodoUpdate(pubs: seq<Publication>, p: nat, pub: Publication)
    requires p < |pubs|
    ensures SumTodo(pubs[p := pub]) == SumTodo(pubs) - |pubs[p].todo| + |pub.todo|
    ensures SumMatched(pubs[p := pub]) == SumMatched(pubs) - pubs[p].matched + pub.matched
  {
    var n := |pubs| - 1;
    if p == n {
      assert pubs[p := pub][..n] == pubs[..n];
    } else {
      SumTodoUpdate(pubs[..n], p, pub);
      assert pubs[p := pub][..n] == pubs[..n][p := pub];
    }
  }

  lemma SumSnoc(pubs: seq<Publication>, pub: Publication)
    ensures SumTodo(pubs + [pub]) == SumTodo(pubs) + |pub.todo|
    ensures SumMatched(pubs + [pub]) == SumMatched(pubs) + pub.matched
  {
    assert (pubs + [pub])[..|pubs|] == pubs;
  }

  lemma {:induction false} SumEnqueuedUpdate(channels: seq<Channel>, id: nat, c: Channel)
    requires id < |channels|
    ensures SumEnqueued(channels[id := c]) == SumEnqueued(channels) - |channels[id].enqueued| + |c.enqueued|
  {
    var n := |channels| - 1;
    if id == n {
      assert channels[id := c][..n] == channels[..n];
    } else {
      SumEnqueuedUpdate(channels[..n], id, c);
      assert channels[id := c][..n] == channels[..n][id := c];
    }
  }

  lemma SumEnqueuedSnoc(channels: seq<Channel>, c: Channel)
    ensures SumEnqueued(channels + [c]) == SumEnqueued(channels) + |c.enqueued|
  {
    assert (channels + [c])[..|channels|] == channels;
  }

  // ---------- lists of subscribers ----------

  lemma DistinctCons(x: SubId, xs: seq<SubId>)
    requires Distinct(xs) && x !in xs
    ensures Distinct([x] + xs)
  {
  }

  lemma {:induction false} RemoveFacts(ids: seq<SubId>, id: SubId)
    requires Distinct(ids)
    ensures Distinct(Remove(ids, id))
    ensures forall x :: x in Remove(ids, id) <==> x in ids && x != id
  {
    if ids != [] {
      assert ids == [ids[0]] + ids[1..];
      RemoveFacts(ids[1..], id);
      DistinctCons(ids[0], Remove(ids[1..], id));
    }
  }

  // The visiting list of a publish: every open subscriber whose filter matches, exactly once.
  lemma {:induction false} FlattenFacts(subs: map<string, seq<SubId>>, channels: seq<Channel>, order: seq<string>)
    requires Registered(subs, channels) && Distinct(order) && forall k :: k in order ==> k in subs
    ensures Distinct(Flatten(subs, order))
    ensures forall id: SubId :: id in Flatten(subs, order) <==>
      id < |channels| && channels[id].open && channels[id].filter in order
  {
    if order != [] {
      var init, last := order[..|order| - 1], order[|order| - 1];
      assert order == init + [last];
      FlattenFacts(subs, channels, init);
      var a, b := Flatten(subs, init), subs[last];
      forall id: SubId ensures id in b <==> IsOpen(channels, id, last) {
        if id < |channels| && channels[id].open {
          assert id in Listed(subs, channels[id].filter);
        }
      }
      forall i, j | 0 <= i < |a| && 0 <= j < |b| ensures a[i] != b[j] {
        assert a[i] in a && b[j] in b;
      }
    }
  }

  lemma VisitsExactlyTheMatching(subs: map<string, seq<SubId>>, channels: seq<Channel>, topic: string,
                                 order: seq<string>)
    requires Registered(subs, channels) && IsOrder(subs, topic, order)
    ensures var todo := Flatten(subs, order);
      && Distinct(todo)
      && (forall id: SubId :: id in todo <==> IsTarget(channels, id, topic))
  {
    FlattenFacts(subs, channels, order);
    forall id: SubId | id < |channels| && channels[id].open ensures channels[id].filter in subs {
      assert id in Listed(subs, channels[id].filter);
    }
  }
}
