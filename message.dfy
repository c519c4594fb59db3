/**
 * A published message together with the two parts of its metadata that
 * publishing mutates: the set of queues that took ownership of it and the
 * number of times it has been released.
 */
module Messages {
  import opened BrokerTypes

  class Message {
    const exchangeName: ExchangeName
    const routingKey: RoutingKey
    /** Every queue the message was routed to (metadata's owned-queue set). */
    var ownedQueues: set<QueueName>
    /** Number of release calls made on the message so far. */
    var releases: nat

    constructor (exchangeName: ExchangeName, routingKey: RoutingKey)
      ensures this.exchangeName == exchangeName && this.routingKey == routingKey
      ensures ownedQueues == {} && releases == 0
    {
      this.exchangeName := exchangeName;
      this.routingKey := routingKey;
      ownedQueues := {};
      releases := 0;
    }

    method AddOwnedQueue(queueName: QueueName)
      modifies this
      ensures ownedQueues == old(ownedQueues) + {queueName}
      ensures releases == old(releases)
    {
      ownedQueues := ownedQueues + {queueName};
    }

    method Release()
      modifies this
      ensures releases == old(releases) + 1
      ensures ownedQueues == old(ownedQueues)
    {
      releases := releases + 1;
    }
  }
}
