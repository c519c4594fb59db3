/**
 * Client code that uses only the engine's contracts, showing the
 * behaviour callers can rely on.
 */
module Scenarios {
  import opened BrokerTypes
  import opened Messages
  import opened Queues
  import opened Exchanges
  import opened Publishing
  import opened Engine

  /** Exact-match routing, as the default (direct) exchange routes. */
  function DirectRoute(e: Exchange, routingKey: RoutingKey): set<Binding>
  {
    set b | b in e.bindings && b.routingKey == routingKey
  }

  /** The only way to visit a single binding. */
  lemma EnumerateOne(bs: seq<Binding>, b: Binding)
    requires Enumerates(bs, {b})
    ensures bs == [b]
  {
  }

  /** A declared queue is reachable through the default exchange under its own name. */
  method PublishThroughDefaultExchange()
  {
    var engine := new MessagingEngine(DirectRoute);
    var r := engine.CreateQueue("q1", false, false, false);
    var q1 := engine.queueRegistry["q1"];
    assert q1 == NewQueue("q1", false, false);
    assert engine.exchangeRegistry[DefaultExchangeName].bindings == {Binding("q1", "q1")};
    assert DirectRoute(engine.exchangeRegistry[DefaultExchangeName], "q1") == {Binding("q1", "q1")};

    var message := new Message(DefaultExchangeName, "q1");
    ghost var order;
    r, order := engine.Publish(message);
    EnumerateOne(order, Binding("q1", "q1"));
    assert FanOut(map["q1" := q1], [], message).queues == map["q1" := q1];
    assert r == Pass && engine.queueRegistry["q1"].ready == [message];
    assert message.ownedQueues == {"q1"} && message.releases == 0;
  }

  /** A message no binding matches is released once and reaches no queue. */
  method PublishUnroutable()
  {
    var engine := new MessagingEngine(DirectRoute);
    var r := engine.CreateQueue("q1", false, false, false);
    ghost var before := engine.queueRegistry;
    assert DirectRoute(engine.exchangeRegistry[DefaultExchangeName], "nowhere") == {};
    var message := new Message(DefaultExchangeName, "nowhere");
    ghost var order;
    r, order := engine.Publish(message);
    assert r == Pass && message.releases == 1 && message.ownedQueues == {};
    assert engine.queueRegistry == before;
  }

  /** Publishing to an exchange that does not exist fails. */
  method PublishToUnknownExchange()
  {
    var engine := new MessagingEngine(DirectRoute);
    var message := new Message("missing", "q1");
    ghost var order;
    var r;
    r, order := engine.Publish(message);
    assert r == Fail(UnknownExchange) && message.releases == 0;
  }

  /** Deleting an in-use queue with ifUnused fails until its consumer is closed. */
  method DeleteAfterClosingConsumer()
  {
    var engine := new MessagingEngine(DirectRoute);
    var r := engine.CreateQueue("q1", false, true, false);
    var c := Consumer(7, "q1");
    r := engine.Consume(c);
    assert r == Pass;
    var closed;
    r, closed := engine.DeleteQueue("q1", true, false);
    assert r == Fail(QueueInUse) && "q1" in engine.queueRegistry;
    engine.CloseConsumer(c);
    r, closed := engine.DeleteQueue("q1", true, true);
    assert r == Pass && closed == {};
    assert "q1" !in engine.queueRegistry && "q1" !in engine.deliveryTasks;
    r := engine.Consume(c);
    assert r == Fail(UnknownQueue);
  }

  /** Redeclaring a queue never replaces it; only an active mismatch fails. */
  method Redeclare()
  {
    var engine := new MessagingEngine(DirectRoute);
    var r := engine.CreateQueue("q1", true, false, false);
    assert r == Fail(UnknownQueue) && engine.queueRegistry == map[];
    r := engine.CreateQueue("q1", false, true, false);
    assert r == Pass;
    r := engine.CreateQueue("q1", false, true, false);
    assert r == Pass;
    r := engine.CreateQueue("q1", false, false, false);
    assert r == Fail(QueueConflict);
    r := engine.CreateQueue("q1", true, false, true);
    assert r == Pass;
    assert engine.queueRegistry["q1"] == NewQueue("q1", true, false);
  }

  /** Binding with an empty routing key is accepted and binds nothing. */
  method BindEmptyKey()
  {
    var engine := new MessagingEngine(DirectRoute);
    var r := engine.CreateQueue("q1", false, false, false);
    ghost var before := engine.exchangeRegistry;
    r := engine.Bind("q1", DefaultExchangeName, "");
    assert r == Pass && engine.exchangeRegistry == before;
    r := engine.Bind("q2", DefaultExchangeName, "k");
    assert r == Fail(UnknownQueue);
    r := engine.Bind("q1", "missing", "k");
    assert r == Fail(UnknownExchange);
    r := engine.Unbind("q9", DefaultExchangeName, "k");
    assert r == Pass;
  }

  /** A fresh engine hands out 1, 2, 3. */
  method FirstIds()
  {
    var engine := new MessagingEngine(DirectRoute);
    var a := engine.GetNextMessageId();
    var b := engine.GetNextMessageId();
    var c := engine.GetNextMessageId();
    assert a == 1 && b == 2 && c == 3;
  }
}
