/**
 * The message relay (`P2PActor` in src/p2p.rs): the list of local
 * subscribers and the gossip publish handle, the handlers that change
 * them, the fan-out of received messages, the publishing of local ones,
 * and the filtering done by the receive loop.
 *
 * Each handler runs as one atomic step. What leaves the actor is
 * recorded in two ghost logs: `mail`, every message posted to a
 * subscriber, in posting order, and `broadcasts`, every byte string
 * handed to the gossip publish handle.
 */
module Relay {
  import opened Wrappers
  import opened Wire
  import opened Chat

  /** A local subscriber: the recipient of `GotMessage`. */
  datatype Recipient = Recipient(id: nat)

  /** A publish handle into the gossip topic. */
  datatype GossipSender = GossipSender(id: nat)

  /** One `GotMessage` posted to one subscriber. */
  datatype Delivery = Delivery(to: Recipient, message: MessageBody)

  /** One byte string handed to a publish handle. */
  datatype Broadcast = Broadcast(via: GossipSender, bytes: seq<Byte>)

  // ---------------------------------------------------------------------
  // Fan-out and inboxes

  /** The deliveries of one message to the subscribers, in registration order. */
  function FanOut(subscribers: seq<Recipient>, m: MessageBody): seq<Delivery> {
    seq(|subscribers|, i requires 0 <= i < |subscribers| => Delivery(subscribers[i], m))
  }

  /** The messages posted to `r`, in posting order. */
  function Inbox(mail: seq<Delivery>, r: Recipient): seq<MessageBody> {
    if mail == [] then []
    else Inbox(mail[..|mail| - 1], r) + (if mail[|mail| - 1].to == r then [mail[|mail| - 1].message] else [])
  }

  /** k copies of m. */
  function Copies(m: MessageBody, k: nat): seq<MessageBody> {
    seq(k, _ => m)
  }

  lemma {:induction false} InboxAppend(a: seq<Delivery>, b: seq<Delivery>, r: Recipient)
    ensures Inbox(a + b, r) == Inbox(a, r) + Inbox(b, r)
    decreases |b|
  {
    if b == [] {
      assert a + b == a;
    } else {
      var b' := b[..|b| - 1];
      assert (a + b)[..|a + b| - 1] == a + b';
      InboxAppend(a, b', r);
    }
  }

  /**
   * Fanning a message out adds to each recipient's inbox one copy per
   * registration of that recipient, and nothing else.
   */
  lemma {:induction false} InboxOfFanOut(subscribers: seq<Recipient>, m: MessageBody, r: Recipient)
    ensures Inbox(FanOut(subscribers, m), r) == Copies(m, multiset(subscribers)[r])
    decreases |subscribers|
  {
    if subscribers != [] {
      var n := |subscribers| - 1;
      var init := subscribers[..n];
      assert subscribers == init + [subscribers[n]];
      assert FanOut(subscribers, m)[..n] == FanOut(init, m);
      InboxOfFanOut(init, m, r);
      assert multiset(subscribers)[r] == multiset(init)[r] + (if subscribers[n] == r then 1 else 0);
    }
  }

  /** No recipient is registered twice. */
  predicate Distinct(subscribers: seq<Recipient>) {
    forall i, j :: 0 <= i < j < |subscribers| ==> subscribers[i] != subscribers[j]
  }

  /** Without repeated registrations, every registered recipient counts once. */
  lemma {:induction false} DistinctCountsOnce(subscribers: seq<Recipient>, r: Recipient)
    requires Distinct(subscribers)
    requires r in subscribers
    ensures multiset(subscribers)[r] == 1
    decreases |subscribers|
  {
    var n := |subscribers| - 1;
    var init := subscribers[..n];
    assert subscribers == init + [subscribers[n]];
    if subscribers[n] == r {
      assert r !in init;
    } else {
      DistinctCountsOnce(init, r);
    }
  }

  /**
   * Delivering a message to the subscribers registered at that moment
   * appends to each inbox one copy per registration of its recipient:
   * exactly one copy when no recipient is registered twice, and none for a
   * recipient that is not registered. Earlier deliveries stay in front.
   */
  lemma DeliveryReachesEachSubscriber(mail: seq<Delivery>, subscribers: seq<Recipient>, m: MessageBody, r: Recipient)
    ensures Inbox(mail + FanOut(subscribers, m), r) == Inbox(mail, r) + Copies(m, multiset(subscribers)[r])
    ensures Distinct(subscribers) && r in subscribers ==> Inbox(mail + FanOut(subscribers, m), r) == Inbox(mail, r) + [m]
    ensures r !in subscribers ==> Inbox(mail + FanOut(subscribers, m), r) == Inbox(mail, r)
  {
    InboxAppend(mail, FanOut(subscribers, m), r);
    InboxOfFanOut(subscribers, m, r);
    if Distinct(subscribers) && r in subscribers {
      DistinctCountsOnce(subscribers, r);
      assert Copies(m, 1) == [m];
    }
    assert r !in subscribers ==> multiset(subscribers)[r] == 0;
  }

  /** A recipient that no posting is addressed to has an empty inbox. */
  lemma {:induction false} InboxOfOthers(mail: seq<Delivery>, r: Recipient)
    requires forall i :: 0 <= i < |mail| ==> mail[i].to != r
    ensures Inbox(mail, r) == []
  {
    if mail != [] {
      InboxOfOthers(mail[..|mail| - 1], r);
    }
  }

  // ---------------------------------------------------------------------
  // The actor

  class P2PActor {
    var subscribers: seq<Recipient>
    var sender: Option<GossipSender>
    /** The process-wide binary codec for messages. */
    const wire: Codec<MessageBody>
    ghost var mail: seq<Delivery>
    ghost var broadcasts: seq<Broadcast>

    /**
     * Only registered subscribers are ever posted to, and nothing is
     * broadcast before a publish handle is installed (it is never removed).
     */
    ghost predicate Valid()
      reads this
    {
      && (forall i :: 0 <= i < |mail| ==> mail[i].to in subscribers)
      && (broadcasts != [] ==> sender.Some?)
    }

    /** A fresh relay: no subscribers, no publish handle, nothing sent. */
    constructor (wire: Codec<MessageBody>)
      ensures Valid()
      ensures subscribers == [] && sender == None
      ensures mail == [] && broadcasts == []
      ensures this.wire == wire
    {
      this.wire := wire;
      subscribers := [];
      sender := None;
      mail := [];
      broadcasts := [];
    }

    /** Appends one recipient at the end of the subscriber list. */
    method Subscribe(r: Recipient)
      requires Valid()
      modifies this
      ensures Valid()
      ensures subscribers == old(subscribers) + [r]
      ensures sender == old(sender) && mail == old(mail) && broadcasts == old(broadcasts)
    {
      subscribers := subscribers + [r];
    }

    /** The `Subscribe` message handler: the same as `Subscribe`. */
    method HandleSubscribe(r: Recipient)
      requires Valid()
      modifies this
      ensures Valid()
      ensures subscribers == old(subscribers) + [r]
      ensures sender == old(sender) && mail == old(mail) && broadcasts == old(broadcasts)
    {
      Subscribe(r);
    }

    /** Installs the publish handle, replacing any earlier one. */
    method HandleSetSender(h: GossipSender)
      requires Valid()
      modifies this
      ensures Valid()
      ensures sender == Some(h)
      ensures subscribers == old(subscribers) && mail == old(mail) && broadcasts == old(broadcasts)
    {
      sender := Some(h);
    }

    /**
     * Posts one copy of `m` to every subscriber, in registration order;
     * the subscribers, the handle and the broadcasts stay as they were.
     */
    method HandleGotMessage(m: MessageBody)
      requires Valid()
      modifies this
      ensures Valid()
      ensures mail == old(mail) + FanOut(subscribers, m)
      ensures subscribers == old(subscribers) && sender == old(sender) && broadcasts == old(broadcasts)
    {
      var i := 0;
      while i < |subscribers|
        invariant 0 <= i <= |subscribers|
        invariant mail == old(mail) + FanOut(subscribers[..i], m)
        invariant Valid()
        invariant subscribers == old(subscribers) && sender == old(sender) && broadcasts == old(broadcasts)
      {
        mail := mail + [Delivery(subscribers[i], m)];
        assert FanOut(subscribers[..i + 1], m) == FanOut(subscribers[..i], m) + [Delivery(subscribers[i], m)];
        i := i + 1;
      }
      assert subscribers[..i] == subscribers;
    }

    /**
     * Encodes `m` and hands the bytes to the publish handle once. Called
     * without a handle, the source stops with a panic, so a handle is
     * required here.
     */
    method HandleSendMessage(m: MessageBody)
      requires Valid()
      requires sender.Some?
      modifies this
      ensures Valid()
      ensures broadcasts == old(broadcasts) + [Broadcast(old(sender).value, wire.encode(m))]
      ensures subscribers == old(subscribers) && sender == old(sender) && mail == old(mail)
    {
      var handle := sender.value;
      var bytes := wire.encode(m);
      broadcasts := broadcasts + [Broadcast(handle, bytes)];
    }

    /** A recipient that is not subscribed has been posted nothing. */
    lemma UnsubscribedGotNothing(r: Recipient)
      requires Valid() && r !in subscribers
      ensures Inbox(mail, r) == []
    {
      InboxOfOthers(mail, r);
    }
  }

  // ---------------------------------------------------------------------
  // The receive loop

  /** The events of a gossip topic. */
  datatype Event = Received(content: seq<Byte>) | NeighborUp(up: NodeId) | NeighborDown(down: NodeId) | Lagged

  /** One poll of the gossip receiver: an error, the end of the stream, or an event. */
  datatype Poll = PollError | PollEnd | PollEvent(event: Event)

  /** What one poll forwards: the message of a received payload that decodes, else nothing. */
  function Forwarded(p: Poll, wire: Codec<MessageBody>): (ms: seq<MessageBody>)
    ensures |ms| <= 1
    ensures |ms| == 1 <==> p.PollEvent? && p.event.Received? && wire.decode(p.event.content).Success?
  {
    match p
    case PollEvent(Received(content)) =>
      (match wire.decode(content)
       case Success((m, _)) => [m]
       case Failure(_) => [])
    case _ => []
  }

  /** The messages the receive loop forwards for a run of polls, in arrival order. */
  function Accepted(polls: seq<Poll>, wire: Codec<MessageBody>): seq<MessageBody> {
    if polls == [] then []
    else Accepted(polls[..|polls| - 1], wire) + Forwarded(polls[|polls| - 1], wire)
  }

  /**
   * The per-poll filtering of the receive loop over a finite run of polls:
   * returns the messages posted to the relay as `GotMessage`, in order.
   * Errors, the end of the stream, other events and payloads that do not
   * decode are skipped and the loop goes on.
   */
  method ReceiveLoop(polls: seq<Poll>, wire: Codec<MessageBody>) returns (posted: seq<MessageBody>)
    ensures posted == Accepted(polls, wire)
  {
    posted := [];
    var i := 0;
    while i < |polls|
      invariant 0 <= i <= |polls|
      invariant posted == Accepted(polls[..i], wire)
    {
      assert polls[..i + 1][..i] == polls[..i];
      var p := polls[i];
      match p {
        case PollEvent(Received(content)) =>
          match wire.decode(content) {
            case Success((m, _)) =>
              posted := posted + [m];
            case Failure(_) =>
          }
        case _ =>
      }
      i := i + 1;
    }
    assert polls[..i] == polls;
  }

  /** The loop filters poll by poll: a run split in two forwards what its halves forward. */
  lemma {:induction false} AcceptedAppend(a: seq<Poll>, b: seq<Poll>, wire: Codec<MessageBody>)
    ensures Accepted(a + b, wire) == Accepted(a, wire) + Accepted(b, wire)
    decreases |b|
  {
    if b == [] {
      assert a + b == a;
    } else {
      var b' := b[..|b| - 1];
      assert (a + b)[..|a + b| - 1] == a + b';
      AcceptedAppend(a, b', wire);
    }
  }

  /** A poll that forwards nothing does not disturb the rest of the run. */
  lemma SkippedPollIsInvisible(a: seq<Poll>, p: Poll, b: seq<Poll>, wire: Codec<MessageBody>)
    requires Forwarded(p, wire) == []
    ensures Accepted(a + [p] + b, wire) == Accepted(a + b, wire)
  {
    assert [p][..0] == [];
    assert Accepted([p], wire) == [];
    AcceptedAppend(a, [p], wire);
    assert Accepted(a + [p], wire) == Accepted(a, wire);
    AcceptedAppend(a + [p], b, wire);
    AcceptedAppend(a, b, wire);
  }

  /** Every forwarded message was decoded from a received payload of the run. */
  lemma {:induction false} AcceptedFromReceived(polls: seq<Poll>, wire: Codec<MessageBody>, m: MessageBody)
    requires m in Accepted(polls, wire)
    ensures exists i :: 0 <= i < |polls| && m in Forwarded(polls[i], wire)
    decreases |polls|
  {
    var n := |polls| - 1;
    if m in Forwarded(polls[n], wire) {
    } else {
      AcceptedFromReceived(polls[..n], wire, m);
      var i :| 0 <= i < n && m in Forwarded(polls[..n][i], wire);
      assert polls[..n][i] == polls[i];
    }
  }

  /** At most one message per poll is forwarded. */
  lemma {:induction false} AcceptedBound(polls: seq<Poll>, wire: Codec<MessageBody>)
    ensures |Accepted(polls, wire)| <= |polls|
    decreases |polls|
  {
    if polls != [] {
      AcceptedBound(polls[..|polls| - 1], wire);
    }
  }

  /**
   * What one relay publishes is what another relay's receive loop
   * forwards: a payload that is the encoding of m is forwarded as m.
   */
  lemma PublishedIsForwarded(m: MessageBody, wire: Codec<MessageBody>)
    requires RoundTrips(wire)
    ensures Accepted([PollEvent(Received(wire.encode(m)))], wire) == [m]
  {
  }
}
