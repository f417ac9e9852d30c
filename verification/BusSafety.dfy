/** What every step of the bus keeps, and the safety theorems over all runs. */
module BusSafety {
  import opened BusProtocol
  import opened Wrappers

  // ---------- what a step leaves alone ----------

  predicate SameRegistration(before: seq<Channel>, after: seq<Channel>) {
    && |before| == |after|
    && forall id :: 0 <= id < |before| ==> after[id].filter == before[id].filter && after[id].open == before[id].open
  }

  lemma RegistrationFrame(subs: map<string, seq<SubId>>, before: seq<Channel>, after: seq<Channel>)
    requires Registered(subs, before) && SameRegistration(before, after)
    ensures Registered(subs, after)
  {
    forall k, id | k in subs && id in subs[k] ensures IsOpen(after, id, k) {
      assert IsOpen(before, id, k);
    }
  }

  lemma PubFrame(before: seq<Channel>, after: seq<Channel>, pub: Publication)
    requires PubOk(before, pub) && SameRegistration(before, after)
    ensures PubOk(after, pub)
  {
    forall id | id in pub.todo ensures IsTarget(after, id, pub.topic) {
      assert IsTarget(before, id, pub.topic);
    }
  }

  predicate SameTopics(before: seq<Publication>, after: seq<Publication>) {
    && |before| <= |after|
    && forall p :: 0 <= p < |before| ==> after[p].topic == before[p].topic
  }

  lemma ChannelFrame(before: seq<Publication>, after: seq<Publication>, c: Channel)
    requires ChannelOk(before, c) && SameTopics(before, after)
    ensures ChannelOk(after, c)
  {
  }

  // ---------- one lemma per step ----------

  lemma SubscribeRegisters(subs: map<string, seq<SubId>>, channels: seq<Channel>, topic: string, c: Channel)
    requires Registered(subs, channels) && c.open && c.filter == topic
    ensures Registered(subs[topic := Listed(subs, topic) + [|channels|]], channels + [c])
  {
    var subs', channels' := subs[topic := Listed(subs, topic) + [|channels|]], channels + [c];
    var n := |channels|;
    forall k, id | k in subs' && id in subs'[k] ensures IsOpen(channels', id, k) {
      if k in subs && id in subs[k] {
        assert IsOpen(channels, id, k);
      }
    }
    forall k | k in subs' ensures Distinct(subs'[k]) {
      if k == topic {
        forall i | 0 <= i < |Listed(subs, topic)| ensures Listed(subs, topic)[i] != n {
          assert Listed(subs, topic)[i] in subs[topic];
        }
      }
    }
    forall id | 0 <= id < |channels'| && channels'[id].open ensures id in Listed(subs', channels'[id].filter) {
      if id < n {
        assert id in Listed(subs, channels[id].filter);
      }
    }
  }

  lemma SubscribeKeeps(s: State, topic: string)
    requires Inv(s) && Step(s, Subscribe(topic)).Some?
    ensures Inv(Step(s, Subscribe(topic)).value)
  {
    var t := Step(s, Subscribe(topic)).value;
    var n := |s.channels|;
    var added := t.channels[n];
    SubscribeRegisters(s.subs, s.channels, topic, added);
    SumEnqueuedSnoc(s.channels, added);
    forall p | 0 <= p < |t.pubs| ensures PubOk(t.channels, t.pubs[p]) {
      assert PubOk(s.channels, s.pubs[p]);
    }
  }

  lemma UnsubscribeRegisters(subs: map<string, seq<SubId>>, channels: seq<Channel>, id: SubId)
    requires Registered(subs, channels) && id < |channels| && channels[id].filter in subs
    ensures var c := channels[id];
      Registered(subs[c.filter := Remove(subs[c.filter], id)], channels[id := c.(open := false)])
  {
    var c := channels[id];
    var subs', channels' := subs[c.filter := Remove(subs[c.filter], id)], channels[id := c.(open := false)];
    RemoveFacts(subs[c.filter], id);
    forall k, x | k in subs' && x in subs'[k] ensures IsOpen(channels', x, k) {
      assert x in subs[k];
      assert IsOpen(channels, x, k);
    }
    forall x | 0 <= x < |channels'| && channels'[x].open ensures x in Listed(subs', channels'[x].filter) {
      assert x in Listed(subs, channels[x].filter);
    }
  }

  lemma UnsubscribeKeeps(s: State, id: SubId)
    requires Inv(s) && Step(s, Unsubscribe(id)).Some?
    ensures Inv(Step(s, Unsubscribe(id)).value)
  {
    var t := Step(s, Unsubscribe(id)).value;
    var c := s.channels[id];
    if id in Listed(s.subs, c.filter) {
      assert IsOpen(s.channels, id, c.filter);
      UnsubscribeRegisters(s.subs, s.channels, id);
      SumEnqueuedUpdate(s.channels, id, c.(open := false));
      forall p | 0 <= p < |t.pubs| ensures PubOk(t.channels, t.pubs[p]) {
        assert PubOk(s.channels, s.pubs[p]) && s.pubs[p].todo == [];
      }
      forall i | 0 <= i < |t.channels| ensures ChannelOk(t.pubs, t.channels[i]) {
        assert ChannelOk(s.pubs, s.channels[i]);
      }
    }
  }

  lemma LockKeeps(s: State, topic: string, order: seq<string>)
    requires Inv(s) && Step(s, Lock(topic, order)).Some?
    ensures Inv(Step(s, Lock(topic, order)).value)
  {
    var t := Step(s, Lock(topic, order)).value;
    var n := |s.pubs|;
    VisitsExactlyTheMatching(s.subs, s.channels, topic, order);
    SumSnoc(s.pubs, t.pubs[n]);
    forall p | 0 <= p < |t.pubs| ensures PubOk(t.channels, t.pubs[p]) {
      if p < n {
        assert PubOk(s.channels, s.pubs[p]);
      }
    }
    forall id | 0 <= id < |t.channels| ensures ChannelOk(t.pubs, t.channels[id]) && n !in t.channels[id].enqueued {
      ChannelFrame(s.pubs, t.pubs, s.channels[id]);
      assert ChannelOk(s.pubs, s.channels[id]);
    }
  }

  lemma SendKeepsPubs(s: State, p: nat)
    requires Inv(s) && Step(s, Send(p)).Some?
    ensures var t := Step(s, Send(p)).value;
      SameRegistration(s.channels, t.channels) && forall q :: 0 <= q < |t.pubs| ==> PubOk(t.channels, t.pubs[q])
  {
    hide TopicMatches, Registered, SumTodo, SumMatched, SumEnqueued, Capacity, ChannelOk, NotYetSent;
    var t := Step(s, Send(p)).value;
    var pub := s.pubs[p];
    assert PubOk(s.channels, pub) && pub.todo[0] in pub.todo && IsTarget(s.channels, pub.todo[0], pub.topic);
    forall q | 0 <= q < |t.pubs| ensures PubOk(t.channels, t.pubs[q]) {
      PubFrame(s.channels, t.channels, s.pubs[q]);
    }
  }

  lemma SendKeepsChannels(s: State, p: nat)
    requires Inv(s) && Step(s, Send(p)).Some?
    ensures var t := Step(s, Send(p)).value;
      && (forall id :: 0 <= id < |t.channels| ==> ChannelOk(t.pubs, t.channels[id]))
      && NotYetSent(t.pubs, t.channels)
  {
    hide TopicMatches, Registered, SumTodo, SumMatched, SumEnqueued, Capacity;
    var t := Step(s, Send(p)).value;
    var pub := s.pubs[p];
    var id := pub.todo[0];
    assert PubOk(s.channels, pub) && id in pub.todo && IsTarget(s.channels, id, pub.topic);
    forall i | 0 <= i < |t.channels| ensures ChannelOk(t.pubs, t.channels[i]) {
      ChannelFrame(s.pubs, t.pubs, s.channels[i]);
    }
    forall q, i | 0 <= q < |t.pubs| && i in t.pubs[q].todo && i < |t.channels|
      ensures q !in t.channels[i].enqueued
    {
      assert i in s.pubs[q].todo;
      assert q !in s.channels[i].enqueued;
    }
  }

  lemma SendKeeps(s: State, p: nat)
    requires Inv(s) && Step(s, Send(p)).Some?
    ensures Inv(Step(s, Send(p)).value)
  {
    hide TopicMatches, Registered, SumTodo, SumMatched, SumEnqueued, Capacity;
    var t := Step(s, Send(p)).value;
    var pub := s.pubs[p];
    var id := pub.todo[0];
    assert PubOk(s.channels, pub) && id in pub.todo && IsTarget(s.channels, id, pub.topic);
    SumTodoUpdate(s.pubs, p, pub.(todo := pub.todo[1..]));
    SumEnqueuedUpdate(s.channels, id, t.channels[id]);
    RegistrationFrame(s.subs, s.channels, t.channels);
    SendKeepsPubs(s, p);
    SendKeepsChannels(s, p);
  }

  lemma UnlockKeeps(s: State, p: nat)
    requires Inv(s) && Step(s, Unlock(p)).Some?
    ensures Inv(Step(s, Unlock(p)).value)
  {
    var t := Step(s, Unlock(p)).value;
    SumTodoUpdate(s.pubs, p, s.pubs[p].(holding := false));
    forall q | 0 <= q < |t.pubs| ensures PubOk(t.channels, t.pubs[q]) {
      assert PubOk(s.channels, s.pubs[q]);
    }
    forall i | 0 <= i < |t.channels| ensures ChannelOk(t.pubs, t.channels[i]) {
      ChannelFrame(s.pubs, t.pubs, s.channels[i]);
    }
  }

  // What a delivery loop does to its own channel leaves everything else as it was.
  lemma DeliveryKeeps(s: State, id: SubId, c: Channel)
    requires Inv(s) && id < |s.channels| && ChannelOk(s.pubs, c)
    requires c.filter == s.channels[id].filter && c.open == s.channels[id].open && c.enqueued == s.channels[id].enqueued
    ensures Inv(s.(channels := s.channels[id := c]))
  {
    hide TopicMatches, Registered, SumTodo, SumMatched, SumEnqueued, Capacity, PubOk, ChannelOk;
    var t := s.(channels := s.channels[id := c]);
    SumEnqueuedUpdate(s.channels, id, c);
    RegistrationFrame(s.subs, s.channels, t.channels);
    forall q | 0 <= q < |t.pubs| ensures PubOk(t.channels, t.pubs[q]) {
      PubFrame(s.channels, t.channels, s.pubs[q]);
    }
  }

  lemma TakeKeeps(s: State, id: SubId)
    requires Inv(s) && Step(s, Take(id)).Some?
    ensures Inv(Step(s, Take(id)).value)
  {
    var c := s.channels[id];
    assert ChannelOk(s.pubs, c);
    assert c.queue == [c.queue[0]] + c.queue[1..];
    DeliveryKeeps(s, id, c.(queue := c.queue[1..], inHand := Some(c.queue[0])));
  }

  lemma HandleKeeps(s: State, id: SubId)
    requires Inv(s) && Step(s, Handle(id)).Some?
    ensures Inv(Step(s, Handle(id)).value)
  {
    var c := s.channels[id];
    assert ChannelOk(s.pubs, c);
    DeliveryKeeps(s, id, c.(inHand := None, busy := true, handled := c.handled + [c.inHand.value]));
  }

  lemma ReturnKeeps(s: State, id: SubId)
    requires Inv(s) && Step(s, Return(id)).Some?
    ensures Inv(Step(s, Return(id)).value)
  {
    var c := s.channels[id];
    assert ChannelOk(s.pubs, c);
    DeliveryKeeps(s, id, c.(busy := false));
  }

  lemma StepKeeps(s: State, a: Action)
    requires Inv(s) && Step(s, a).Some?
    ensures Inv(Step(s, a).value)
  {
    match a
    case Subscribe(topic) => SubscribeKeeps(s, topic);
    case Unsubscribe(id) => UnsubscribeKeeps(s, id);
    case Count =>
    case Skip =>
    case Lock(topic, order) => LockKeeps(s, topic, order);
    case Send(p) => SendKeeps(s, p);
    case Unlock(p) => UnlockKeeps(s, p);
    case Take(id) => TakeKeeps(s, id);
    case Handle(id) => HandleKeeps(s, id);
    case Return(id) => ReturnKeeps(s, id);
  }

  // ---------- main results ----------

  lemma {:induction false} RunKeeps(s: State, actions: seq<Action>)
    requires Inv(s) && RunFrom(s, actions).Some?
    ensures Inv(RunFrom(s, actions).value)
  {
    if actions != [] {
      hide Inv, Step;
      var init := actions[..|actions| - 1];
      RunKeeps(s, init);
      StepKeeps(RunFrom(s, init).value, actions[|actions| - 1]);
    }
  }

  // Every interleaving from the empty bus: registered exactly once if and only if open, no send on a
  // closed channel, no second close, every queue first-in first-out and bounded, counters balanced.
  lemma {:induction false} RunsAreSafe(actions: seq<Action>)
    requires RunFrom(INITIAL, actions).Some?
    ensures Inv(RunFrom(INITIAL, actions).value)
  {
    assert Inv(INITIAL);
    RunKeeps(INITIAL, actions);
  }

  lemma {:induction false} NothingTodo(pubs: seq<Publication>)
    requires forall p :: 0 <= p < |pubs| ==> pubs[p].todo == []
    ensures SumTodo(pubs) == 0
  {
    if pubs != [] {
      NothingTodo(pubs[..|pubs| - 1]);
    }
  }

  // With no publish under way every matching subscription of every publish past dedup was either
  // delivered to or dropped, and delivered events are exactly the enqueued ones.
  lemma BalancedAtRest(actions: seq<Action>)
    requires RunFrom(INITIAL, actions).Some?
    ensures var s := RunFrom(INITIAL, actions).value;
      s.waiting == 0 && NoReader(s) ==>
        && s.delivered + s.dropped == SumMatched(s.pubs)
        && s.delivered == SumEnqueued(s.channels)
        && s.published == s.skipped + |s.pubs|
  {
    RunsAreSafe(actions);
    var s := RunFrom(INITIAL, actions).value;
    if NoReader(s) {
      forall p | 0 <= p < |s.pubs| ensures s.pubs[p].todo == [] {
        assert PubOk(s.channels, s.pubs[p]);
      }
      NothingTodo(s.pubs);
    }
  }

  lemma LockVisits(s: State, topic: string, order: seq<string>)
    requires Inv(s) && Step(s, Lock(topic, order)).Some?
    ensures |Step(s, Lock(topic, order)).value.pubs| == |s.pubs| + 1
    ensures var pub := Step(s, Lock(topic, order)).value.pubs[|s.pubs|];
      && Distinct(pub.todo) && |pub.todo| == pub.matched
      && (forall id: SubId :: id in pub.todo <==> IsTarget(s.channels, id, topic))
  {
    VisitsExactlyTheMatching(s.subs, s.channels, topic, order);
  }

  // A publish counts as matched exactly the open subscribers whose filters match when it takes the lock.
  lemma LockMatchesOpenSubscribers(actions: seq<Action>, topic: string, order: seq<string>)
    requires RunFrom(INITIAL, actions).Some?
    requires Step(RunFrom(INITIAL, actions).value, Lock(topic, order)).Some?
    ensures var s := RunFrom(INITIAL, actions).value;
      var pub := Step(s, Lock(topic, order)).value.pubs[|s.pubs|];
      && Distinct(pub.todo) && |pub.todo| == pub.matched
      && (forall id: SubId :: id in pub.todo <==> IsTarget(s.channels, id, topic))
  {
    hide RunFrom, Step;
    RunsAreSafe(actions);
    LockVisits(RunFrom(INITIAL, actions).value, topic, order);
  }

  predicate EndsInWildcard(filter: string) {
    |filter| >= 2 && filter[|filter| - 2..] == ".*"
  }

  // A filter without a wildcard: neither "*" nor one ending in ".*" or starting with "*.".
  predicate Plain(filter: string) {
    filter != "*" && !("*." <= filter) && !EndsInWildcard(filter)
  }

  lemma MatchesByShape(filter: string, topic: string)
    ensures filter == "*" ==> TopicMatches(filter, topic)
    ensures Plain(filter) ==> (TopicMatches(filter, topic) <==> filter == topic)
  {
  }

  lemma MatchesByText(filter: string, text: string, topic: string)
    ensures filter == text + ".*" ==> (TopicMatches(filter, topic) <==> text <= topic)
    ensures filter == "*." + text && text != "*" && !EndsInWildcard(text) ==>
      (TopicMatches(filter, topic) <==> |text| <= |topic| && topic[|topic| - |text|..] == text)
  {
    SuffixPattern(text, topic);
    if text != "*" && !EndsInWildcard(text) {
      PrefixPattern(text, topic);
    }
  }

  // What that means filter by filter, for an open subscriber when any publish takes the lock in any run:
  // "*" is always visited, a plain filter for its own topic alone, p.* for the topics starting with p, and
  // *.x for those ending with x.
  lemma LockByFilter(actions: seq<Action>, topic: string, order: seq<string>, id: SubId, text: string)
    requires RunFrom(INITIAL, actions).Some?
    requires var s := RunFrom(INITIAL, actions).value;
      Step(s, Lock(topic, order)).Some? && id < |s.channels| && s.channels[id].open
    ensures var s := RunFrom(INITIAL, actions).value;
      var pub, filter := Step(s, Lock(topic, order)).value.pubs[|s.pubs|], s.channels[id].filter;
      && (filter == "*" ==> id in pub.todo)
      && (Plain(filter) ==> (id in pub.todo <==> filter == topic))
      && (filter == text + ".*" ==> (id in pub.todo <==> text <= topic))
      && (filter == "*." + text && text != "*" && !EndsInWildcard(text) ==>
            (id in pub.todo <==> |text| <= |topic| && topic[|topic| - |text|..] == text))
  {
    hide RunFrom, Step, TopicMatches, Plain, EndsInWildcard;
    LockMatchesOpenSubscribers(actions, topic, order);
    var filter := RunFrom(INITIAL, actions).value.channels[id].filter;
    MatchesByShape(filter, topic);
    MatchesByText(filter, text, topic);
  }

  // ---------- room in the queue ----------

  lemma {:induction false} DistinctBelow(xs: seq<nat>, n: nat)
    requires Distinct(xs) && forall x :: x in xs ==> x < n
    ensures |xs| <= n
    decreases n
  {
    if xs == [] {
      return;
    }
    assert xs[0] in xs;
    if n - 1 in xs {
      var k :| 0 <= k < |xs| && xs[k] == n - 1;
      var rest := xs[..k] + xs[k + 1..];
      assert forall x :: x in rest ==> x in xs && x != n - 1;
      DistinctBelow(rest, n - 1);
    } else {
      DistinctBelow(xs, n - 1);
    }
  }

  // A publish that has still to visit a subscriber is missing from its queue.
  lemma QueueBelowPublishes(s: State, p: nat)
    requires Inv(s) && p < |s.pubs| && s.pubs[p].todo != []
    ensures var id := s.pubs[p].todo[0];
      id < |s.channels| && |s.channels[id].queue| < |s.pubs|
  {
    var id := s.pubs[p].todo[0];
    assert PubOk(s.channels, s.pubs[p]) && id in s.pubs[p].todo;
    assert IsTarget(s.channels, id, s.pubs[p].topic);
    var c := s.channels[id];
    assert ChannelOk(s.pubs, c) && p !in c.enqueued;
    var longer := c.enqueued + [p];
    DistinctBelow(longer, |s.pubs|);
  }

  // A non-blocking send in any run: the event joins the subscriber's queue exactly while that holds fewer
  // than 1000 events for the filter "*" and fewer than 100 for any other, and is dropped otherwise.
  lemma SendDropsIff(actions: seq<Action>, p: nat)
    requires RunFrom(INITIAL, actions).Some?
    requires var s := RunFrom(INITIAL, actions).value; p < |s.pubs| && s.pubs[p].todo != []
    ensures var s := RunFrom(INITIAL, actions).value;
      var id := s.pubs[p].todo[0];
      && id < |s.channels| && Step(s, Send(p)).Some?
      && var t, c := Step(s, Send(p)).value, s.channels[id];
        if |c.queue| < (if c.filter == "*" then 1000 else 100)
        then t.channels[id].queue == c.queue + [p] && t.delivered == s.delivered + 1 && t.dropped == s.dropped
        else t.channels == s.channels && t.delivered == s.delivered && t.dropped == s.dropped + 1
  {
    RunsAreSafe(actions);
    hide RunFrom;
    var s := RunFrom(INITIAL, actions).value;
    var id := s.pubs[p].todo[0];
    assert PubOk(s.channels, s.pubs[p]) && id in s.pubs[p].todo;
    assert IsTarget(s.channels, id, s.pubs[p].topic);
  }

  // No queue ever holds more than 1000 events, or 100 for a filter other than "*".
  lemma QueuesBounded(actions: seq<Action>, id: SubId)
    requires RunFrom(INITIAL, actions).Some? && id < |RunFrom(INITIAL, actions).value.channels|
    ensures var c := RunFrom(INITIAL, actions).value.channels[id];
      |c.queue| <= if c.filter == "*" then 1000 else 100
  {
    RunsAreSafe(actions);
    hide RunFrom;
    var s := RunFrom(INITIAL, actions).value;
    assert ChannelOk(s.pubs, s.channels[id]);
  }

  // So a subscriber to "*" loses nothing in the first 1000 publishes past dedup.
  lemma WildcardLosesNothing(actions: seq<Action>, p: nat)
    requires RunFrom(INITIAL, actions).Some?
    requires var s := RunFrom(INITIAL, actions).value;
      p < |s.pubs| <= 1000 && s.pubs[p].todo != []
    ensures var s := RunFrom(INITIAL, actions).value;
      var id := s.pubs[p].todo[0];
      && id < |s.channels|
      && (s.channels[id].filter == "*" ==>
            Step(s, Send(p)).Some? && Step(s, Send(p)).value.channels[id].queue == s.channels[id].queue + [p])
  {
    hide Step, RunFrom, Inv;
    RunsAreSafe(actions);
    QueueBelowPublishes(RunFrom(INITIAL, actions).value, p);
    SendDropsIff(actions, p);
  }

  lemma FewPublishesStep(s: State, a: Action)
    requires Inv(s) && Step(s, a).Some? && |Step(s, a).value.pubs| <= 100
    ensures |s.pubs| <= 100 && Step(s, a).value.dropped == s.dropped
  {
    if a.Send? {
      QueueBelowPublishes(s, a.pub);
    }
  }

  // Drop-on-full never bites before the smallest buffer could fill: in every run with at most 100
  // publishes past dedup nothing is dropped.
  lemma {:induction false} NoDropsBelowCapacity(actions: seq<Action>)
    requires RunFrom(INITIAL, actions).Some?
    ensures var s := RunFrom(INITIAL, actions).value;
      |s.pubs| <= 100 ==> s.dropped == 0
  {
    if actions != [] {
      hide Inv, Step;
      var init := actions[..|actions| - 1];
      RunsAreSafe(init);
      NoDropsBelowCapacity(init);
      var s := RunFrom(INITIAL, init).value;
      if |RunFrom(INITIAL, actions).value.pubs| <= 100 {
        FewPublishesStep(s, actions[|actions| - 1]);
      }
    }
  }

  predicate Idle(c: Channel) {
    c.queue == [] && c.inHand.None? && !c.busy
  }

  // The step a delivery loop takes next while it is not idle.
  function NextDelivery(c: Channel, id: SubId): Action
    requires !Idle(c)
  {
    if c.busy then Return(id) else if c.inHand.Some? then Handle(id) else Take(id)
  }

  function DeliverySteps(c: Channel): nat {
    3 * |c.queue| + (if c.inHand.Some? then 2 else 0) + (if c.busy then 1 else 0)
  }

  lemma DeliveryStep(s: State, id: SubId)
    requires Inv(s) && id < |s.channels| && !Idle(s.channels[id])
    ensures var r := Step(s, NextDelivery(s.channels[id], id));
      && r.Some? && Inv(r.value)
      && id < |r.value.channels| && r.value.channels[id].enqueued == s.channels[id].enqueued
      && DeliverySteps(r.value.channels[id]) < DeliverySteps(s.channels[id])
  {
    assert ChannelOk(s.pubs, s.channels[id]);
    StepKeeps(s, NextDelivery(s.channels[id], id));
  }

  // Left to itself a delivery loop, its channel open or closed, hands over everything ever enqueued.
  lemma {:induction false} DrainsCompletely(s: State, id: SubId) returns (steps: seq<Action>)
    requires Inv(s) && id < |s.channels|
    ensures var r := RunFrom(s, steps);
      && r.Some? && id < |r.value.channels| && Idle(r.value.channels[id])
      && r.value.channels[id].handled == s.channels[id].enqueued
    decreases DeliverySteps(s.channels[id])
  {
    if Idle(s.channels[id]) {
      steps := [];
      assert ChannelOk(s.pubs, s.channels[id]);
    } else {
      var a := NextDelivery(s.channels[id], id);
      DeliveryStep(s, id);
      hide Inv, Step;
      var rest := DrainsCompletely(Step(s, a).value, id);
      steps := [a] + rest;
      RunSnoc(s, [], a);
      assert [] + [a] == [a];
      RunAppend(s, [a], rest);
    }
  }

  // ---------- unsubscribing ----------

  lemma {:induction false} RemoveSplits(a: seq<SubId>, id: SubId, b: seq<SubId>)
    requires id !in a
    ensures Remove(a + [id] + b, id) == a + b
  {
    if a == [] {
      assert a + [id] + b == [id] + b;
    } else {
      RemoveSplits(a[1..], id, b);
      assert (a + [id] + b)[1..] == a[1..] + [id] + b;
      assert a + b == [a[0]] + (a[1..] + b);
    }
  }

  // Unsubscribing closes the one channel, keeps every other list and the order of the others in its
  // own, and a second call changes nothing.
  lemma UnsubscribeOnce(s: State, id: SubId)
    requires Inv(s) && Step(s, Unsubscribe(id)).Some?
    ensures var t := Step(s, Unsubscribe(id)).value;
      var filter := s.channels[id].filter;
      && Step(t, Unsubscribe(id)) == Some(t)
      && t.channels == s.channels[id := s.channels[id].(open := false)]
      && (forall a, b :: Listed(s.subs, filter) == a + [id] + b && id !in a ==> Listed(t.subs, filter) == a + b)
      && (forall topic :: topic != filter ==> Listed(t.subs, topic) == Listed(s.subs, topic))
  {
    var t := Step(s, Unsubscribe(id)).value;
    var filter := s.channels[id].filter;
    UnsubscribeKeeps(s, id);
    if id in Listed(s.subs, filter) {
      RemoveFacts(s.subs[filter], id);
      forall a, b | Listed(s.subs, filter) == a + [id] + b && id !in a ensures Listed(t.subs, filter) == a + b {
        RemoveSplits(a, id, b);
      }
    } else {
      assert !s.channels[id].open;
      assert s.channels[id].(open := false) == s.channels[id];
      forall a: seq<SubId>, b ensures id in a + [id] + b {
        assert (a + [id] + b)[|a|] == id;
      }
    }
  }

  lemma ClosedStep(s: State, id: SubId, a: Action)
    requires Inv(s) && id < |s.channels| && !s.channels[id].open && Step(s, a).Some?
    ensures var t := Step(s, a).value;
      && id < |t.channels| && !t.channels[id].open
      && t.channels[id].enqueued == s.channels[id].enqueued
      && |t.channels[id].handled| >= |s.channels[id].handled|
  {
  }

  // A closed channel stays closed and never receives another event.
  lemma {:induction false} ClosedForGood(s: State, id: SubId, actions: seq<Action>)
    requires Inv(s) && id < |s.channels| && !s.channels[id].open && RunFrom(s, actions).Some?
    ensures var t := RunFrom(s, actions).value;
      && id < |t.channels| && !t.channels[id].open
      && t.channels[id].enqueued == s.channels[id].enqueued
      && |t.channels[id].handled| >= |s.channels[id].handled|
  {
    if actions != [] {
      hide Inv;
      var init := actions[..|actions| - 1];
      ClosedForGood(s, id, init);
      RunKeeps(s, init);
      ClosedStep(RunFrom(s, init).value, id, actions[|actions| - 1]);
    }
  }

  ghost predicate HandledAgain(s: State, id: SubId, actions: seq<Action>)
    requires id < |s.channels|
  {
    && RunFrom(s, actions).Some?
    && id < |RunFrom(s, actions).value.channels|
    && |RunFrom(s, actions).value.channels[id].handled| > |s.channels[id].handled|
  }

  // The port promises no handler call after Unsubscribe returns.  That holds exactly when at the close
  // the queue was empty and the delivery loop had no event in hand: either is still passed to the handler.
  lemma QuietAfterUnsubscribeIff(s: State, id: SubId)
    requires Inv(s) && id < |s.channels| && !s.channels[id].open
    ensures (exists actions :: HandledAgain(s, id, actions)) <==>
      s.channels[id].queue != [] || s.channels[id].inHand.Some?
  {
    var c := s.channels[id];
    assert ChannelOk(s.pubs, c);
    if c.queue != [] || c.inHand.Some? {
      var steps := DrainsCompletely(s, id);
      assert HandledAgain(s, id, steps);
    }
    forall actions | HandledAgain(s, id, actions) ensures c.queue != [] || c.inHand.Some? {
      ClosedForGood(s, id, actions);
      RunKeeps(s, actions);
      var t := RunFrom(s, actions).value;
      assert ChannelOk(t.pubs, t.channels[id]);
    }
  }

  // One subscriber and one publish, stage by stage.
  function OneSubscriber(topic: string): State {
    INITIAL.(subs := map[topic := [0]], channels := [NewChannel(topic)])
  }

  function OneLocked(topic: string): State {
    OneSubscriber(topic).(published := 1, pubs := [Publication(topic, true, [0], 1)])
  }

  function OneSent(topic: string): State {
    OneLocked(topic).(pubs := [Publication(topic, true, [], 1)], delivered := 1,
                      channels := [NewChannel(topic).(queue := [0], enqueued := [0])])
  }

  function OneClosed(topic: string): State {
    OneSent(topic).(pubs := [Publication(topic, false, [], 1)], subs := map[topic := []],
                    channels := [NewChannel(topic).(queue := [0], enqueued := [0], open := false)])
  }

  lemma {:induction false} RunAlong(actions: seq<Action>, states: seq<State>)
    requires |states| == |actions| + 1
    requires forall k :: 0 <= k < |actions| ==> Step(states[k], actions[k]) == Some(states[k + 1])
    ensures RunFrom(states[0], actions) == Some(states[|actions|])
  {
    hide Step;
    if actions != [] {
      RunAlong(actions[..|actions| - 1], states[..|actions|]);
    }
  }

  lemma SubscribeFirst(topic: string)
    requires topic != ""
    ensures Step(INITIAL, Subscribe(topic)) == Some(OneSubscriber(topic))
  {
    assert Listed(INITIAL.subs, topic) + [0] == [0];
    assert INITIAL.subs[topic := [0]] == map[topic := [0]];
    assert INITIAL.channels + [NewChannel(topic)] == [NewChannel(topic)];
  }

  lemma LockFirst(topic: string)
    ensures Step(OneSubscriber(topic).(published := 1, waiting := 1), Lock(topic, [topic])) == Some(OneLocked(topic))
  {
    var s := OneSubscriber(topic).(published := 1, waiting := 1);
    assert [topic][..0] == [];
    assert Flatten(s.subs, [topic]) == [] + [0] == [0];
    assert IsOrder(s.subs, topic, [topic]);
    assert s.pubs + [Publication(topic, true, [0], 1)] == [Publication(topic, true, [0], 1)];
  }

  lemma SendFirst(topic: string)
    ensures Step(OneLocked(topic), Send(0)) == Some(OneSent(topic))
  {
    var s := OneLocked(topic);
    assert s.pubs[0].todo[1..] == [];
    assert s.pubs[0 := Publication(topic, true, [], 1)] == [Publication(topic, true, [], 1)];
    var c := NewChannel(topic).(queue := [0], enqueued := [0]);
    assert [] + [0] == [0];
    assert s.channels[0 := c] == [c];
  }

  lemma CloseFirst(topic: string)
    ensures var unlocked := OneSent(topic).(pubs := [Publication(topic, false, [], 1)]);
      && Step(OneSent(topic), Unlock(0)) == Some(unlocked)
      && Step(unlocked, Unsubscribe(0)) == Some(OneClosed(topic))
  {
    var s := OneSent(topic);
    assert s.pubs[0 := Publication(topic, false, [], 1)] == [Publication(topic, false, [], 1)];
    assert Remove([0], 0) == [];
    assert s.subs[topic := []] == map[topic := []];
    var c := s.channels[0].(open := false);
    assert s.channels[0 := c] == [c];
  }

  lemma RunToClose(topic: string)
    requires topic != ""
    ensures RunFrom(INITIAL, [Subscribe(topic), Count, Lock(topic, [topic]), Send(0), Unlock(0), Unsubscribe(0)])
         == Some(OneClosed(topic))
  {
    var counted := OneSubscriber(topic).(published := 1, waiting := 1);
    var unlocked := OneSent(topic).(pubs := [Publication(topic, false, [], 1)]);
    SubscribeFirst(topic);
    assert Step(OneSubscriber(topic), Count) == Some(counted);
    LockFirst(topic);
    SendFirst(topic);
    CloseFirst(topic);
    hide Step, RunFrom, OneSubscriber, OneLocked, OneSent, OneClosed;
    RunAlong([Subscribe(topic), Count, Lock(topic, [topic]), Send(0), Unlock(0), Unsubscribe(0)],
             [INITIAL, OneSubscriber(topic), counted, OneLocked(topic), OneSent(topic), unlocked, OneClosed(topic)]);
  }

  // A run that closes a channel with an event still queued: the handler is invoked for it afterwards.
  lemma QueuedAtTheClose(topic: string)
    requires topic != ""
    ensures var actions := [Subscribe(topic), Count, Lock(topic, [topic]), Send(0), Unlock(0), Unsubscribe(0)];
      && RunFrom(INITIAL, actions) == Some(OneClosed(topic))
      && OneClosed(topic).channels[0].queue == [0] && !OneClosed(topic).channels[0].open
      && exists later :: HandledAgain(OneClosed(topic), 0, later)
  {
    RunToClose(topic);
    assert |OneClosed(topic).channels| == 1 && OneClosed(topic).channels[0].queue == [0];
    hide Step, RunFrom, Inv;
    RunsAreSafe([Subscribe(topic), Count, Lock(topic, [topic]), Send(0), Unlock(0), Unsubscribe(0)]);
    QuietAfterUnsubscribeIff(OneClosed(topic), 0);
  }
}
