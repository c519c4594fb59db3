/**
 * The broker's messaging engine: the queue registry, the exchange
 * registry, the delivery tasks registered per queue, and the message id
 * counter, with the admin, publish and consume operations over them.
 */
module Engine {
  import opened BrokerTypes
  import opened Messages
  import opened Queues
  import opened Exchanges
  import opened MessageIds
  import opened Publishing

  class MessagingEngine {
    var queueRegistry: map<QueueName, QueueHandler>
    var exchangeRegistry: Registry
    /** Queues whose delivery task is registered with the task executor. */
    var deliveryTasks: set<QueueName>
    var messageIdGenerator: Long
    /** The exchange's routing: the bindings that match a routing key. */
    const route: (Exchange, RoutingKey) -> set<Binding>

    ghost predicate Valid()
      reads this
    {
      && RegistryBounded(queueRegistry)
      && deliveryTasks == queueRegistry.Keys
      && WellFormed(exchangeRegistry)
    }

    constructor (route: (Exchange, RoutingKey) -> set<Binding>)
      ensures Valid()
      ensures queueRegistry == map[] && deliveryTasks == {}
      ensures exchangeRegistry == NewRegistry()
      ensures messageIdGenerator == 0
      ensures this.route == route
    {
      queueRegistry := map[];
      exchangeRegistry := NewRegistry();
      deliveryTasks := {};
      messageIdGenerator := 0;
      this.route := route;
    }

    method Bind(queueName: QueueName, exchangeName: ExchangeName, routingKey: RoutingKey) returns (r: Outcome)
      requires Valid()
      modifies this
      ensures Valid()
      ensures queueRegistry == old(queueRegistry) && deliveryTasks == old(deliveryTasks)
      ensures messageIdGenerator == old(messageIdGenerator)
      ensures exchangeName !in old(exchangeRegistry) ==>
        r == Fail(UnknownExchange) && exchangeRegistry == old(exchangeRegistry)
      ensures exchangeName in old(exchangeRegistry) && queueName !in queueRegistry ==>
        r == Fail(UnknownQueue) && exchangeRegistry == old(exchangeRegistry)
      ensures exchangeName in old(exchangeRegistry) && queueName in queueRegistry ==>
        r == Pass &&
        exchangeRegistry == if routingKey == "" then old(exchangeRegistry)
          else old(exchangeRegistry)[exchangeName := Exchanges.Bind(old(exchangeRegistry)[exchangeName], queueName, routingKey)]
    {
      if exchangeName !in exchangeRegistry {
        return Fail(UnknownExchange);
      }
      if queueName !in queueRegistry {
        return Fail(UnknownQueue);
      }
      if routingKey != "" {
        exchangeRegistry := exchangeRegistry[exchangeName := Exchanges.Bind(exchangeRegistry[exchangeName], queueName, routingKey)];
      }
      r := Pass;
    }

    method Unbind(queueName: QueueName, exchangeName: ExchangeName, routingKey: RoutingKey) returns (r: Outcome)
      requires Valid()
      modifies this
      ensures Valid()
      ensures queueRegistry == old(queueRegistry) && deliveryTasks == old(deliveryTasks)
      ensures messageIdGenerator == old(messageIdGenerator)
      ensures exchangeName !in old(exchangeRegistry) ==>
        r == Fail(UnknownExchange) && exchangeRegistry == old(exchangeRegistry)
      ensures exchangeName in old(exchangeRegistry) ==>
        r == Pass &&
        exchangeRegistry == old(exchangeRegistry)[exchangeName := Exchanges.Unbind(old(exchangeRegistry)[exchangeName], queueName, routingKey)]
    {
      if exchangeName !in exchangeRegistry {
        return Fail(UnknownExchange);
      }
      exchangeRegistry := exchangeRegistry[exchangeName := Exchanges.Unbind(exchangeRegistry[exchangeName], queueName, routingKey)];
      r := Pass;
    }

    method CreateQueue(queueName: QueueName, passive: bool, durable: bool, autoDelete: bool) returns (r: Outcome)
      requires Valid()
      modifies this
      ensures Valid()
      ensures messageIdGenerator == old(messageIdGenerator)
      // a passive declare of a missing queue fails and changes nothing
      ensures queueName !in old(queueRegistry) && passive ==>
        r == Fail(UnknownQueue) && unchanged(this)
      // a missing queue is created, bound to the default exchange under its
      // own name, and given a delivery task
      ensures queueName !in old(queueRegistry) && !passive ==>
        && r == Pass
        && queueRegistry == old(queueRegistry)[queueName := NewQueue(queueName, durable, autoDelete)]
        && exchangeRegistry == old(exchangeRegistry)[DefaultExchangeName :=
             Exchanges.Bind(old(exchangeRegistry)[DefaultExchangeName], queueName, queueName)]
        && deliveryTasks == old(deliveryTasks) + {queueName}
      // an existing queue is never replaced; only an active redeclare with
      // other flags fails
      ensures queueName in old(queueRegistry) ==>
        && unchanged(this)
        && (r.Fail? <==> !passive && (old(queueRegistry)[queueName].durable != durable
                                      || old(queueRegistry)[queueName].autoDelete != autoDelete))
        && (r.Fail? ==> r.error == QueueConflict)
    {
      if passive && queueName !in queueRegistry {
        return Fail(UnknownQueue);
      }
      if queueName !in queueRegistry {
        var handler := NewQueue(queueName, durable, autoDelete);
        queueRegistry := queueRegistry[queueName := handler];
        exchangeRegistry := exchangeRegistry[DefaultExchangeName :=
          Exchanges.Bind(exchangeRegistry[DefaultExchangeName], queueName, queueName)];
        deliveryTasks := deliveryTasks + {queueName};
        r := Pass;
      } else if !passive && (queueRegistry[queueName].durable != durable
                             || queueRegistry[queueName].autoDelete != autoDelete) {
        r := Fail(QueueConflict);
      } else {
        r := Pass;
      }
    }

    /**
     * Publishes a message: the exchange's matching bindings are visited
     * one by one, in the order recorded in the ghost result `order`.
     */
    method Publish(message: Message) returns (r: Outcome, ghost order: seq<Binding>)
      requires Valid()
      requires message.exchangeName in exchangeRegistry ==>
        forall b | b in route(exchangeRegistry[message.exchangeName], message.routingKey) :: b.queueName in queueRegistry
      modifies this, message
      ensures Valid()
      ensures exchangeRegistry == old(exchangeRegistry) && deliveryTasks == old(deliveryTasks)
      ensures messageIdGenerator == old(messageIdGenerator)
      ensures message.exchangeName !in exchangeRegistry ==>
        r == Fail(UnknownExchange) && unchanged(this) && unchanged(message)
      ensures message.exchangeName in exchangeRegistry ==>
        var bindings := route(exchangeRegistry[message.exchangeName], message.routingKey);
        && r == Pass
        && Enumerates(order, bindings)
        && NamesRegistered(order, old(queueRegistry))
        && var fan := FanOut(old(queueRegistry), order, message);
           && queueRegistry == fan.queues
           && message.ownedQueues == old(message.ownedQueues) + fan.owned
           && message.releases == old(message.releases) + (if bindings == {} then 1 else 0) + fan.drops
      // every matching binding's queue owns the message, enqueued or not
      ensures message.exchangeName in exchangeRegistry ==>
        var bindings := route(exchangeRegistry[message.exchangeName], message.routingKey);
        message.ownedQueues == old(message.ownedQueues) + set b | b in bindings :: b.queueName
      // with no matching binding the message is released once and no queue changes
      ensures message.exchangeName in exchangeRegistry &&
              route(exchangeRegistry[message.exchangeName], message.routingKey) == {} ==>
        queueRegistry == old(queueRegistry) && message.releases == old(message.releases) + 1
    {
      order := [];
      if message.exchangeName !in exchangeRegistry {
        return Fail(UnknownExchange), order;
      }
      var bindings := route(exchangeRegistry[message.exchangeName], message.routingKey);
      if bindings == {} {
        message.Release();
      }
      order := DeliverToAll(bindings, message);
      FanOutSummary(old(queueRegistry), order, bindings, message);
      r := Pass;
    }

    /** The forEach over the matching bindings, in the order the set is visited. */
    method DeliverToAll(bindings: set<Binding>, message: Message) returns (ghost order: seq<Binding>)
      requires Valid()
      requires forall b | b in bindings :: b.queueName in queueRegistry
      modifies this, message
      ensures Valid()
      ensures Enumerates(order, bindings) && NamesRegistered(order, old(queueRegistry))
      ensures var fan := FanOut(old(queueRegistry), order, message);
        && queueRegistry == fan.queues
        && message.ownedQueues == old(message.ownedQueues) + fan.owned
        && message.releases == old(message.releases) + fan.drops
      ensures exchangeRegistry == old(exchangeRegistry) && deliveryTasks == old(deliveryTasks)
      ensures messageIdGenerator == old(messageIdGenerator)
    {
      order := [];
      ghost var queues0 := queueRegistry;
      ghost var owned0 := message.ownedQueues;
      ghost var releases0 := message.releases;
      var pending := bindings;
      while pending != {}
        invariant Valid()
        invariant Visiting(order, pending, bindings)
        invariant NamesRegistered(order, queues0)
        invariant queueRegistry == FanOut(queues0, order, message).queues
        invariant message.ownedQueues == owned0 + FanOut(queues0, order, message).owned
        invariant message.releases == releases0 + FanOut(queues0, order, message).drops
        invariant exchangeRegistry == old(exchangeRegistry) && deliveryTasks == old(deliveryTasks)
        invariant messageIdGenerator == old(messageIdGenerator)
        decreases pending
      {
        var binding :| binding in pending;
        FanOutAppend(queues0, order, binding, message);
        VisitNext(order, pending, bindings, binding);
        DeliverToBinding(binding, message);
        order := order + [binding];
        pending := pending - {binding};
      }
      VisitDone(order, bindings, queues0);
    }

    /**
     * One step of the fan-out: the binding's queue becomes an owner of the
     * message, and the message is released if that queue refuses it.
     */
    method DeliverToBinding(binding: Binding, message: Message)
      requires Valid()
      requires binding.queueName in queueRegistry
      modifies this, message
      ensures Valid()
      ensures var e := Enqueue(old(queueRegistry)[binding.queueName], message);
        && queueRegistry == (if e.accepted then old(queueRegistry)[binding.queueName := e.queue] else old(queueRegistry))
        && message.ownedQueues == old(message.ownedQueues) + {binding.queueName}
        && message.releases == old(message.releases) + (if e.accepted then 0 else 1)
      ensures exchangeRegistry == old(exchangeRegistry) && deliveryTasks == old(deliveryTasks)
      ensures messageIdGenerator == old(messageIdGenerator)
    {
      var handler := queueRegistry[binding.queueName];
      message.AddOwnedQueue(binding.queueName);
      var e := Enqueue(handler, message);
      if e.accepted {
        queueRegistry := queueRegistry[binding.queueName := e.queue];
      } else {
        message.Release();
      }
    }

    /** The queue must be registered: the source does not check for a missing one. */
    method Acknowledge(queueName: QueueName, deliveryTag: int, multiple: bool)
      requires Valid()
      requires queueName in queueRegistry
      modifies this
      ensures Valid()
      ensures queueRegistry == old(queueRegistry)[queueName :=
        Queues.Acknowledge(old(queueRegistry)[queueName], deliveryTag, multiple)]
      ensures exchangeRegistry == old(exchangeRegistry) && deliveryTasks == old(deliveryTasks)
      ensures messageIdGenerator == old(messageIdGenerator)
    {
      queueRegistry := queueRegistry[queueName :=
        Queues.Acknowledge(queueRegistry[queueName], deliveryTag, multiple)];
    }

    /**
     * Deletes a queue. `closed` is the set of consumers forcibly closed
     * when the queue goes away.
     */
    method DeleteQueue(queueName: QueueName, ifUnused: bool, ifEmpty: bool) returns (r: Outcome, closed: set<Consumer>)
      requires Valid()
      modifies this
      ensures Valid()
      ensures exchangeRegistry == old(exchangeRegistry) && messageIdGenerator == old(messageIdGenerator)
      ensures queueName !in old(queueRegistry) ==> r == Pass && closed == {} && unchanged(this)
      ensures queueName in old(queueRegistry) ==>
        var q := old(queueRegistry)[queueName];
        && (ifUnused && !IsUnused(q) ==>
              r == Fail(QueueInUse) && closed == {} && unchanged(this))
        && (!(ifUnused && !IsUnused(q)) && ifEmpty && !IsEmpty(q) ==>
              r == Fail(QueueNotEmpty) && closed == {} && unchanged(this))
        && (!(ifUnused && !IsUnused(q)) && !(ifEmpty && !IsEmpty(q)) ==>
              && r == Pass
              && closed == q.consumers
              && queueRegistry == old(queueRegistry) - {queueName}
              && deliveryTasks == old(deliveryTasks) - {queueName})
    {
      closed := {};
      if queueName !in queueRegistry {
        return Pass, closed;
      }
      var handler := queueRegistry[queueName];
      if ifUnused && !IsUnused(handler) {
        r := Fail(QueueInUse);
      } else if ifEmpty && !IsEmpty(handler) {
        r := Fail(QueueNotEmpty);
      } else {
        deliveryTasks := deliveryTasks - {queueName};
        queueRegistry := queueRegistry - {queueName};
        closed := handler.consumers;
        r := Pass;
      }
    }

    method Consume(consumer: Consumer) returns (r: Outcome)
      requires Valid()
      modifies this
      ensures Valid()
      ensures consumer.queueName !in old(queueRegistry) ==> r == Fail(UnknownQueue) && unchanged(this)
      ensures consumer.queueName in old(queueRegistry) ==>
        && r == Pass
        && queueRegistry == old(queueRegistry)[consumer.queueName :=
             AddConsumer(old(queueRegistry)[consumer.queueName], consumer)]
        && exchangeRegistry == old(exchangeRegistry) && deliveryTasks == old(deliveryTasks)
        && messageIdGenerator == old(messageIdGenerator)
    {
      if consumer.queueName !in queueRegistry {
        return Fail(UnknownQueue);
      }
      queueRegistry := queueRegistry[consumer.queueName :=
        AddConsumer(queueRegistry[consumer.queueName], consumer)];
      r := Pass;
    }

    method CloseConsumer(consumer: Consumer)
      requires Valid()
      modifies this
      ensures Valid()
      ensures consumer.queueName !in old(queueRegistry) ==> unchanged(this)
      ensures consumer.queueName in old(queueRegistry) ==>
        && queueRegistry == old(queueRegistry)[consumer.queueName :=
             RemoveConsumer(old(queueRegistry)[consumer.queueName], consumer)]
        && exchangeRegistry == old(exchangeRegistry) && deliveryTasks == old(deliveryTasks)
        && messageIdGenerator == old(messageIdGenerator)
    {
      if consumer.queueName in queueRegistry {
        queueRegistry := queueRegistry[consumer.queueName :=
          RemoveConsumer(queueRegistry[consumer.queueName], consumer)];
      }
    }

    /** Parses the type and hands the declare to the exchange registry. */
    method CreateExchange(exchangeName: ExchangeName, typeName: string, passive: bool, durable: bool) returns (r: Outcome)
      requires Valid()
      modifies this
      ensures Valid()
      ensures queueRegistry == old(queueRegistry) && deliveryTasks == old(deliveryTasks)
      ensures messageIdGenerator == old(messageIdGenerator)
      ensures ParseExchangeType(typeName).Err? ==>
        r == Fail(UnknownExchangeType) && unchanged(this)
      ensures ParseExchangeType(typeName).Ok? ==>
        match Declare(old(exchangeRegistry), exchangeName, ParseExchangeType(typeName).value, passive, durable)
        case Ok(reg) => r == Pass && exchangeRegistry == reg
        case Err(e) => r == Fail(e) && exchangeRegistry == old(exchangeRegistry)
    {
      var kind := ParseExchangeType(typeName);
      if kind.Err? {
        return Fail(kind.error);
      }
      var declared := Declare(exchangeRegistry, exchangeName, kind.value, passive, durable);
      if declared.Err? {
        return Fail(declared.error);
      }
      exchangeRegistry := declared.value;
      r := Pass;
    }

    /** Parses the type and hands the delete to the exchange registry. */
    method DeleteExchange(exchangeName: ExchangeName, typeName: string, ifUnused: bool) returns (r: Outcome)
      requires Valid()
      modifies this
      ensures Valid()
      ensures queueRegistry == old(queueRegistry) && deliveryTasks == old(deliveryTasks)
      ensures messageIdGenerator == old(messageIdGenerator)
      ensures ParseExchangeType(typeName).Err? ==>
        r == Fail(UnknownExchangeType) && unchanged(this)
      ensures ParseExchangeType(typeName).Ok? ==>
        match Delete(old(exchangeRegistry), exchangeName, ifUnused)
        case Ok(reg) => r == Pass && exchangeRegistry == reg
        case Err(e) => r == Fail(e) && exchangeRegistry == old(exchangeRegistry)
    {
      var kind := ParseExchangeType(typeName);
      if kind.Err? {
        return Fail(kind.error);
      }
      var deleted := Delete(exchangeRegistry, exchangeName, ifUnused);
      if deleted.Err? {
        return Fail(deleted.error);
      }
      exchangeRegistry := deleted.value;
      r := Pass;
    }

    method GetNextMessageId() returns (id: Long)
      requires Valid()
      modifies this
      ensures Valid()
      ensures id == messageIdGenerator == NextId(old(messageIdGenerator))
      ensures old(messageIdGenerator) < MaxLong ==> id == old(messageIdGenerator) + 1
      ensures queueRegistry == old(queueRegistry) && exchangeRegistry == old(exchangeRegistry)
      ensures deliveryTasks == old(deliveryTasks)
    {
      messageIdGenerator := NextId(messageIdGenerator);
      id := messageIdGenerator;
    }
  }
}
