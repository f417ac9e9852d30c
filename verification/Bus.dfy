/**
 The bus as the source writes it: an object whose methods change the subscription map, the channels
 and the counters.  Each locked section, send and receive is shown to be a step of BusProtocol, and
 an uninterrupted Publish to be a run of it.
 */
module Bus {
  import opened BusProtocol
  import opened BusSafety
  import opened Wrappers

  datatype BusError = EmptyTopic | DedupFailed

  // What the duplicate check answers, when there is one.
  datatype Dedup = Off | Failing | Known(processed: bool)

  // What a send changes besides the channels: one fewer to visit, one more counted.
  lemma SendStepShape(s: State, p: nat)
    requires Inv(s) && p < |s.pubs| && s.pubs[p].todo != []
    ensures Step(s, Send(p)).Some?
    ensures var t := Step(s, Send(p)).value;
      && t.pubs == s.pubs[p := s.pubs[p].(todo := s.pubs[p].todo[1..])]
      && t.delivered + t.dropped == s.delivered + s.dropped + 1
      && t.subs == s.subs && t.waiting == s.waiting
  {
    var pub := s.pubs[p];
    assert PubOk(s.channels, pub) && pub.todo[0] in pub.todo && IsTarget(s.channels, pub.todo[0], pub.topic);
  }

  class InprocBus {
    var subs: map<string, seq<SubId>>
    var channels: seq<Channel>
    var pubs: seq<Publication>
    var waiting: nat
    var skipped: nat
    var published: nat
    var delivered: nat
    var dropped: nat

    function View(): State
      reads this
    {
      State(subs, channels, pubs, waiting, skipped, published, delivered, dropped, false)
    }

    constructor ()
      ensures View() == INITIAL
    {
      subs, channels, pubs := map[], [], [];
      waiting, skipped, published, delivered, dropped := 0, 0, 0, 0, 0;
    }

    // Runs under the write lock, so no publish holds the read lock.
    method SubscribeTo(topic: string) returns (r: Result<SubId, BusError>)
      requires NoReader(View())
      modifies this
      ensures topic == "" ==> r == Err(EmptyTopic) && View() == old(View())
      ensures topic != "" ==> r == Ok(old(|channels|)) && Step(old(View()), Subscribe(topic)) == Some(View())
    {
      if topic == "" {
        return Err(EmptyTopic);
      }
      var id := |channels|;
      channels := channels + [NewChannel(topic)];
      var list := if topic in subs then subs[topic] else [];
      subs := subs[topic := list + [id]];
      return Ok(id);
    }

    // Runs under the write lock.  The list is searched from the front and closed up in place.
    method Unsubscribe(id: SubId)
      requires NoReader(View()) && Inv(View()) && id < |channels|
      modifies this
      ensures Step(old(View()), BusProtocol.Unsubscribe(id)) == Some(View())
    {
      var topic := channels[id].filter;
      var list := if topic in subs then subs[topic] else [];
      for i := 0 to |list|
        invariant id !in list[..i]
        invariant View() == old(View())
      {
        if list[i] == id {
          RemoveSplits(list[..i], id, list[i + 1..]);
          assert list == list[..i] + [id] + list[i + 1..];
          assert id in subs[topic] && IsOpen(channels, id, topic);
          subs := subs[topic := list[..i] + list[i + 1..]];
          channels := channels[id := channels[id].(open := false)];
          return;
        }
      }
      assert list[..|list|] == list;
    }

    // One non-blocking send: enqueue if there is room, otherwise drop.
    method TrySend(p: nat)
      requires Inv(View()) && p < |pubs| && pubs[p].todo != []
      modifies this
      ensures Step(old(View()), Send(p)) == Some(View())
    {
      var pub := pubs[p];
      var id := pub.todo[0];
      assert PubOk(channels, pub) && id in pub.todo && IsTarget(channels, id, pub.topic);
      pubs := pubs[p := pub.(todo := pub.todo[1..])];
      var c := channels[id];
      if |c.queue| < Capacity(c.filter) {
        channels := channels[id := c.(queue := c.queue + [p], enqueued := c.enqueued + [p])];
        delivered := delivered + 1;
      } else {
        dropped := dropped + 1;
      }
    }

    // The delivery loop receives the oldest queued event.
    method TakeEvent(id: SubId)
      requires id < |channels| && channels[id].queue != [] && channels[id].inHand.None? && !channels[id].busy
      modifies this
      ensures Step(old(View()), Take(id)) == Some(View())
    {
      var c := channels[id];
      channels := channels[id := c.(queue := c.queue[1..], inHand := Some(c.queue[0]))];
    }

    // It then calls the handler with it.
    method CallHandler(id: SubId) returns (event: nat)
      requires id < |channels| && channels[id].inHand.Some?
      modifies this
      ensures event == old(channels[id].inHand.value)
      ensures Step(old(View()), Handle(id)) == Some(View())
    {
      var c := channels[id];
      event := c.inHand.value;
      channels := channels[id := c.(inHand := None, busy := true, handled := c.handled + [event])];
    }

    method HandlerReturns(id: SubId)
      requires id < |channels| && channels[id].busy
      modifies this
      ensures Step(old(View()), Return(id)) == Some(View())
    {
      channels := channels[id := channels[id].(busy := false)];
    }

    // One round of the delivery loop without interruption.
    method DeliverOne(id: SubId) returns (ghost steps: seq<Action>)
      requires id < |channels| && channels[id].queue != [] && channels[id].inHand.None? && !channels[id].busy
      modifies this
      ensures RunFrom(old(View()), steps) == Some(View())
      ensures var c := old(channels[id]);
        channels == old(channels)[id := c.(queue := c.queue[1..], handled := c.handled + [c.queue[0]])]
    {
      ghost var start := View();
      TakeEvent(id);
      var event := CallHandler(id);
      HandlerReturns(id);
      RunSnoc(start, [], Take(id));
      RunSnoc(start, [] + [Take(id)], Handle(id));
      RunSnoc(start, [] + [Take(id)] + [Handle(id)], Return(id));
      steps := [] + [Take(id)] + [Handle(id)] + [Return(id)];
    }

    // The delivery loop without interruption, up to the moment its channel is empty.
    method Deliver(id: SubId) returns (ghost steps: seq<Action>)
      requires id < |channels| && channels[id].inHand.None? && !channels[id].busy
      modifies this
      ensures RunFrom(old(View()), steps) == Some(View())
      ensures |channels| == old(|channels|)
      ensures channels[id] == old(channels[id]).(queue := [], handled := old(channels[id].handled + channels[id].queue))
      ensures forall x :: 0 <= x < |channels| && x != id ==> channels[x] == old(channels[x])
    {
      hide Step;
      ghost var start := View();
      steps := [];
      while channels[id].queue != []
        invariant |channels| == old(|channels|)
        invariant channels[id] == old(channels[id]).(queue := channels[id].queue, handled := channels[id].handled)
        invariant channels[id].handled + channels[id].queue == old(channels[id].handled + channels[id].queue)
        invariant forall x :: 0 <= x < |channels| && x != id ==> channels[x] == old(channels[x])
        invariant RunFrom(start, steps) == Some(View())
        decreases |channels[id].queue|
      {
        hide RunFrom;
        ghost var c := channels[id];
        assert c.handled + c.queue == c.handled + [c.queue[0]] + c.queue[1..];
        ghost var more := DeliverOne(id);
        RunAppend(start, steps, more);
        steps := steps + more;
      }
      assert channels[id].handled + [] == channels[id].handled;
    }

    // The map's keys in whatever order it yields them, the matching ones kept.
    method MatchingTopics(topic: string) returns (order: seq<string>)
      ensures IsOrder(subs, topic, order)
    {
      order := [];
      var keys := subs.Keys;
      while keys != {}
        invariant keys <= subs.Keys
        invariant Distinct(order)
        invariant forall k :: k in order ==> k in subs && k !in keys && TopicMatches(k, topic)
        invariant forall k :: k in subs && k !in keys && TopicMatches(k, topic) ==> k in order
        decreases |keys|
      {
        var k :| k in keys;
        keys := keys - {k};
        if TopicMatches(k, topic) {
          order := order + [k];
        }
      }
    }

    // The publish counter, and the duplicate check when it ends the publish.
    method CountPublish(skip: bool) returns (ghost steps: seq<Action>)
      modifies this
      ensures View() == old(View()).(published := old(published) + 1,
                                     waiting := if skip then old(waiting) else old(waiting) + 1,
                                     skipped := if skip then old(skipped) + 1 else old(skipped))
      ensures RunFrom(old(View()), steps) == Some(View())
    {
      ghost var start := View();
      published := published + 1;
      steps := [] + [Count];
      RunSnoc(start, [], Count);
      if skip {
        skipped := skipped + 1;
        RunSnoc(start, steps, Skip);
        steps := steps + [Skip];
      } else {
        waiting := waiting + 1;
      }
    }

    // Taking the read lock fixes what will be visited.
    method TakeReadLock(topic: string) returns (ghost order: seq<string>)
      requires waiting > 0
      modifies this
      ensures Step(old(View()), Lock(topic, order)) == Some(View())
      ensures |pubs| == old(|pubs|) + 1 && pubs[old(|pubs|)].topic == topic && pubs[old(|pubs|)].holding
      ensures |pubs[old(|pubs|)].todo| == pubs[old(|pubs|)].matched
      ensures subs == old(subs) && waiting == old(waiting) - 1 && delivered == old(delivered) && dropped == old(dropped)
    {
      var topics := MatchingTopics(topic);
      order := topics;
      var todo := Flatten(subs, topics);
      waiting := waiting - 1;
      pubs := pubs + [Publication(topic, true, todo, |todo|)];
    }

    // Every subscriber still to visit gets one non-blocking send.
    method VisitAll(p: nat) returns (ghost steps: seq<Action>)
      requires Inv(View()) && p < |pubs|
      modifies this
      ensures RunFrom(old(View()), steps) == Some(View()) && Inv(View())
      ensures |pubs| == old(|pubs|) && pubs[p] == old(pubs[p]).(todo := [])
      ensures delivered + dropped == old(delivered) + old(dropped) + old(|pubs[p].todo|)
      ensures subs == old(subs) && waiting == old(waiting)
    {
      ghost var start := View();
      steps := [];
      while pubs[p].todo != []
        invariant |pubs| == old(|pubs|) && pubs[p] == old(pubs[p]).(todo := pubs[p].todo)
        invariant delivered + dropped + |pubs[p].todo| == old(delivered) + old(dropped) + old(|pubs[p].todo|)
        invariant subs == old(subs) && waiting == old(waiting)
        invariant RunFrom(start, steps) == Some(View()) && Inv(View())
        decreases |pubs[p].todo|
      {
        hide Inv, Step, RunFrom;
        ghost var before := View();
        TrySend(p);
        SendStepShape(before, p);
        StepKeeps(before, Send(p));
        RunSnoc(start, steps, Send(p));
        steps := steps + [Send(p)];
      }
    }

    // Publish without interruption.  The steps it takes are returned for the specification.
    method Publish(topic: string, dedup: Dedup) returns (ok: bool, ghost steps: seq<Action>)
      requires Inv(View())
      modifies this
      ensures RunFrom(old(View()), steps) == Some(View()) && Inv(View())
      ensures ok <==> !dedup.Failing?
      ensures dedup.Failing? || dedup == Known(true) ==>
        View() == old(View()).(published := old(published) + 1, skipped := old(skipped) + 1)
      ensures dedup.Off? || dedup == Known(false) ==>
        && |pubs| == old(|pubs|) + 1
        && pubs[old(|pubs|)] == Publication(topic, false, [], pubs[old(|pubs|)].matched)
        && delivered + dropped == old(delivered) + old(dropped) + pubs[old(|pubs|)].matched
        && subs == old(subs) && waiting == old(waiting)
    {
      hide Inv, Step, RunFrom;
      ghost var start := View();
      var skip := dedup.Failing? || dedup == Known(true);
      steps := CountPublish(skip);
      RunKeeps(start, steps);
      if skip {
        return !dedup.Failing?, steps;
      }
      var p := |pubs|;
      ghost var order := TakeReadLock(topic);
      RunSnoc(start, steps, Lock(topic, order));
      steps := steps + [Lock(topic, order)];
      RunKeeps(start, steps);
      ghost var locked := View();
      ghost var sends := VisitAll(p);
      RunAppend(start, steps, sends);
      steps := steps + sends;
      Release(p);
      RunSnoc(start, steps, Unlock(p));
      steps := steps + [Unlock(p)];
      RunKeeps(start, steps);
      return true, steps;
    }

    method Release(p: nat)
      requires p < |pubs| && pubs[p].todo == [] && pubs[p].holding
      modifies this
      ensures Step(old(View()), Unlock(p)) == Some(View())
      ensures View() == old(View()).(pubs := old(pubs)[p := old(pubs[p]).(holding := false)])
    {
      pubs := pubs[p := pubs[p].(holding := false)];
    }
  }
}
