# Messaging engine of the WSO2/Ballerina message broker, in Dafny

This project models `MessagingEngine`, the core of the broker that owns
queue lifecycle, binding of queues to exchanges, publishing with fan-out to
bounded queues, consumer registration, acknowledgement and message ids.

The engine is the class `Engine.MessagingEngine`. Its state is:

- `queueRegistry`: the name-to-queue-handler map;
- `exchangeRegistry`: the name-to-exchange map, which always holds the default exchange;
- `deliveryTasks`: the names of the queues whose delivery task is registered;
- `messageIdGenerator`: the 64-bit id counter.

Each admin, publish and consume operation is a method. Each method returns
an `Outcome` (`Pass` or `Fail(error)`) where the source throws a
`BrokerException`. The contract of each method gives the new state for
every branch of the source. `Valid()` is the invariant every method keeps:

- each handler is registered under its own name and holds no more than its capacity;
- a delivery task exists exactly for each registered queue;
- the default direct exchange is always registered.

The engine's collaborators are modelled abstractly:

- `Queues`: a queue handler is a value. It holds its flags, its capacity
  (1000 for every queue the engine creates), its ready messages, its
  in-flight messages by delivery tag, and its consumers. Enqueue succeeds
  exactly when the queue is below capacity.
- `Exchanges`: an exchange is a value holding a set of `(queue, routing key)`
  bindings. Type parsing and the registry's declare and delete rules are
  assumptions of this model, since the registry's source is not part of it
  (see Left out).
- `Messages`: a message is an object. Publishing grows its owned-queue set
  and counts its releases.
- Routing (`Exchange.getBindingsForRoute`) is the constant function `route`,
  which the engine's constructor receives.
- `Publishing`: the set-to-queues fan-out of `publish`, as the function
  `FanOut` over the bindings in the order they are visited, with its lemmas.
  Between them the lemmas say:
  - what each queue receives: one copy per binding that names it, until the queue is full;
  - that this does not depend on the visiting order;
  - exactly when copies are dropped;
  - that every visited queue becomes an owner of the message.
- `MessageIds`: the counter's increment-and-get, with its 64-bit wrap-around.
  Also a proof that a fresh counter hands out 1, 2, 3, … in strictly
  increasing order.
- `Scenarios`: client methods that use only the contracts. They show:
  - reachability through the default exchange;
  - dropping a message that no binding matches;
  - the ifUnused guard before and after a consumer is closed;
  - redeclaration rules;
  - empty-key binds;
  - the first message ids.

## Model

| member | source | states |
|---|---|---|
| Engine.MessagingEngine.constructor | modules/broker-core/src/main/java/org/wso2/broker/core/MessagingEngine.java:61-68 | a new engine has no queues and no delivery tasks, holds only the default exchange, and has its id counter at 0 |
| Engine.MessagingEngine.Bind | modules/broker-core/src/main/java/org/wso2/broker/core/MessagingEngine.java:70-85 | a missing exchange fails with UnknownExchange, checked before the queue; otherwise a missing queue fails with UnknownQueue. Both failures change nothing. An empty routing key succeeds and leaves the bindings unchanged. Any other key adds exactly that binding to that exchange. Queues, tasks and the counter never change |
| Engine.MessagingEngine.Unbind | modules/broker-core/src/main/java/org/wso2/broker/core/MessagingEngine.java:87-94 | fails only on a missing exchange, changing nothing; otherwise removes exactly that binding, whether or not the queue exists and whatever the key is |
| Engine.MessagingEngine.CreateQueue | modules/broker-core/src/main/java/org/wso2/broker/core/MessagingEngine.java:96-115 | a passive declare of a missing queue fails with UnknownQueue and changes nothing. An active declare of a missing queue adds exactly one handler (requested flags, capacity 1000, empty, no consumers), one default-exchange binding keyed by the queue's name and one delivery task. An existing queue is never replaced and nothing changes; the call fails with QueueConflict exactly when it is active and the durable or autoDelete flag differs |
| Engine.MessagingEngine.Publish | modules/broker-core/src/main/java/org/wso2/broker/core/MessagingEngine.java:117-140 | an unknown exchange fails with UnknownExchange and changes neither the engine nor the message. Otherwise it succeeds: the routed bindings are visited each exactly once; the queues become FanOut of that order; every routed queue joins the message's owned set; releases grow by the drops, plus one when nothing matched. With no match, no queue changes and the message is released exactly once |
| Engine.MessagingEngine.DeliverToAll | modules/broker-core/src/main/java/org/wso2/broker/core/MessagingEngine.java:129-136 | the forEach over the routed set: it visits every binding exactly once and leaves the queues, owned set and release count that FanOut gives for that order; the engine invariant is kept |
| Engine.MessagingEngine.DeliverToBinding | modules/broker-core/src/main/java/org/wso2/broker/core/MessagingEngine.java:130-135 | one binding: its queue joins the owned set even if the enqueue fails; an accepted enqueue replaces only that queue; a refused one leaves the queues as they were and adds exactly one release; the engine invariant is kept |
| Engine.MessagingEngine.Acknowledge | modules/broker-core/src/main/java/org/wso2/broker/core/MessagingEngine.java:142-145 | for a registered queue, replaces only that queue's handler with the acknowledged one; exchanges, tasks and counter unchanged |
| Engine.MessagingEngine.DeleteQueue | modules/broker-core/src/main/java/org/wso2/broker/core/MessagingEngine.java:147-164 | a missing queue is a successful no-op. ifUnused with a consumer fails with QueueInUse, checked before ifEmpty; ifEmpty on a non-empty queue fails with QueueNotEmpty. Both failures change nothing. On success the handler and its delivery task are removed and all its consumers are returned as closed; the bindings stay |
| Engine.MessagingEngine.Consume | modules/broker-core/src/main/java/org/wso2/broker/core/MessagingEngine.java:166-174 | a missing queue fails with UnknownQueue and changes nothing; otherwise the consumer is added to that queue's handler and nothing else changes |
| Engine.MessagingEngine.CloseConsumer | modules/broker-core/src/main/java/org/wso2/broker/core/MessagingEngine.java:193-198 | a missing queue is a no-op; otherwise the consumer is removed from that queue's handler only |
| Engine.MessagingEngine.CreateExchange | modules/broker-core/src/main/java/org/wso2/broker/core/MessagingEngine.java:184-187 | an unknown type name fails with UnknownExchangeType and changes nothing; otherwise the outcome and the new exchange registry are the registry's declare, and queues, tasks and the counter are unchanged |
| Engine.MessagingEngine.DeleteExchange | modules/broker-core/src/main/java/org/wso2/broker/core/MessagingEngine.java:189-191 | an unknown type name fails with UnknownExchangeType and changes nothing; otherwise the outcome and the new exchange registry are the registry's delete |
| Engine.MessagingEngine.GetNextMessageId | modules/broker-core/src/main/java/org/wso2/broker/core/MessagingEngine.java:200-202 | increments the counter (wrapping at the 64-bit maximum) and returns the new value, which is one more than the old below the maximum; nothing else changes |
| MessageIds.NextId | modules/broker-core/src/main/java/org/wso2/broker/core/MessagingEngine.java:201 | increment-and-get on a signed 64-bit counter: one more, except that the largest value wraps to the smallest |
| MessageIds.IdsIssued | modules/broker-core/src/main/java/org/wso2/broker/core/MessagingEngine.java:200-202 | n successive calls return n ids |
| MessageIds.IdsCountUp | modules/broker-core/src/main/java/org/wso2/broker/core/MessagingEngine.java:200-202 | while no wrap-around is reached, the k-th of n successive calls on a counter holding s returns s + k |
| MessageIds.IdsFromFreshCounter | modules/broker-core/src/main/java/org/wso2/broker/core/MessagingEngine.java:59-67 | from the counter initialised to 0, the first id is 1 and the ids of up to 2^63-1 calls are strictly increasing, hence pairwise distinct |
| Publishing.FanOut | modules/broker-core/src/main/java/org/wso2/broker/core/MessagingEngine.java:129-136 | visiting the bindings in order keeps the set of registered queues, and drops at most one copy per binding |
| Publishing.FanOutOnQueue | modules/broker-core/src/main/java/org/wso2/broker/core/MessagingEngine.java:129-136 | each queue's ready messages become the old ones followed by min(number of bindings naming it, free room) copies of the message, so a full queue takes nothing |
| Publishing.FanOutUntouched | modules/broker-core/src/main/java/org/wso2/broker/core/MessagingEngine.java:129-136 | a queue that no matching binding names is left exactly as it was |
| Publishing.FanOutFrame | modules/broker-core/src/main/java/org/wso2/broker/core/MessagingEngine.java:132 | publishing changes only the ready messages of a queue, and a queue within its capacity stays within it |
| Publishing.FanOutNoDrops | modules/broker-core/src/main/java/org/wso2/broker/core/MessagingEngine.java:132-135 | no copy is dropped (no extra release) exactly when every named queue has room for all the bindings that name it |
| Publishing.FanOutAllFull | modules/broker-core/src/main/java/org/wso2/broker/core/MessagingEngine.java:132-135 | when every named queue is full, every binding adds one release and no queue changes |
| Publishing.FanOutOwned | modules/broker-core/src/main/java/org/wso2/broker/core/MessagingEngine.java:131 | the owned-queue set gains exactly the queue names of the visited bindings, whether or not their enqueue succeeded |
| Publishing.FanOutSummary | modules/broker-core/src/main/java/org/wso2/broker/core/MessagingEngine.java:122-136 | over any enumeration of the routed set: the owners are the routed queue names; an empty set changes nothing and drops nothing; registry bounds and names are kept |
| Publishing.FanOutDrops | modules/broker-core/src/main/java/org/wso2/broker/core/MessagingEngine.java:129-136 | closed form of the releases a fan-out adds: the sum, over the queues the routed bindings name, of how many bindings name that queue beyond its free room |
| Publishing.OverflowAdd | modules/broker-core/src/main/java/org/wso2/broker/core/MessagingEngine.java:132-135 | one more binding raises that sum by one exactly when its queue is listed and has no room left for it |
| Publishing.FanOutOrderIndependent | modules/broker-core/src/main/java/org/wso2/broker/core/MessagingEngine.java:122-136 | any two enumerations of the routed set give the same fan-out: the same queues, the same owners and the same number of drops |
| Publishing.CountEnumeration | modules/broker-core/src/main/java/org/wso2/broker/core/MessagingEngine.java:122-129 | in any enumeration of the routed set, the number of bindings naming a queue equals the number of such bindings in the set, so what a queue receives does not depend on iteration order |
| Queues.NewQueue | modules/broker-core/src/main/java/org/wso2/broker/core/MessagingEngine.java:105 | a new handler carries the requested name and flags and capacity 1000, and is empty and unused |
| Queues.Enqueue | modules/broker-core/src/main/java/org/wso2/broker/core/MessagingEngine.java:132 | accepted exactly when the queue is below capacity. An accepted message is appended and nothing else changes; a refused one leaves the queue as it was. The capacity bound is kept |
| Queues.Acknowledge | modules/broker-core/src/main/java/org/wso2/broker/core/MessagingEngine.java:144 | removes the tagged in-flight message and, for a multiple ack, every lower tag; ignores unknown tags; changes nothing else; never grows the queue |
| Queues.AddConsumer | modules/broker-core/src/main/java/org/wso2/broker/core/MessagingEngine.java:169 | the consumer joins the set, the queue is no longer unused, nothing else changes |
| Queues.RemoveConsumer | modules/broker-core/src/main/java/org/wso2/broker/core/MessagingEngine.java:196 | the consumer leaves the set, nothing else changes |
| Queues.RemoveUndoesAdd | modules/broker-core/src/main/java/org/wso2/broker/core/MessagingEngine.java:166-198 | closing a consumer that was just added restores the handler |
| Exchanges.ParseExchangeType | modules/broker-core/src/main/java/org/wso2/broker/core/MessagingEngine.java:186 | parses exactly the three type names and fails with UnknownExchangeType on any other |
| Exchanges.ParseTypeName | modules/broker-core/src/main/java/org/wso2/broker/core/MessagingEngine.java:190 | every type's name parses back to that type |
| Exchanges.Bind | modules/broker-core/src/main/java/org/wso2/broker/core/MessagingEngine.java:82 | adds exactly the (queue, key) binding, nothing else changes |
| Exchanges.Unbind | modules/broker-core/src/main/java/org/wso2/broker/core/MessagingEngine.java:93 | removes exactly the (queue, key) binding, nothing else changes |
| Exchanges.UnbindUndoesBind | modules/broker-core/src/main/java/org/wso2/broker/core/MessagingEngine.java:70-94 | unbinding a new binding right after binding it restores the exchange |
| Exchanges.BindIdempotent | modules/broker-core/src/main/java/org/wso2/broker/core/MessagingEngine.java:108 | binding the same triple twice equals binding it once |
| Exchanges.NewRegistry | modules/broker-core/src/main/java/org/wso2/broker/core/MessagingEngine.java:63 | a new registry holds only the default direct exchange, with no bindings |
| Exchanges.Declare | modules/broker-core/src/main/java/org/wso2/broker/core/MessagingEngine.java:186 | a passive declare of a missing exchange fails with UnknownExchange; an active one adds it. An existing exchange fails with ExchangeConflict exactly when the declare is active and the type or durability differs. A passive declare never changes the registry, and the registry invariant is kept |
| Exchanges.DeclareIdempotent | modules/broker-core/src/main/java/org/wso2/broker/core/MessagingEngine.java:184-187 | repeating a successful declare succeeds and changes nothing |
| Exchanges.Delete | modules/broker-core/src/main/java/org/wso2/broker/core/MessagingEngine.java:190 | the default exchange is never deleted. A missing exchange is a no-op. With ifUnused, an exchange with bindings fails with ExchangeInUse; otherwise the exchange is removed. The registry invariant is kept |
| Messages.Message.AddOwnedQueue | modules/broker-core/src/main/java/org/wso2/broker/core/MessagingEngine.java:131 | the queue joins the owned set; the release count is unchanged |
| Messages.Message.Release | modules/broker-core/src/main/java/org/wso2/broker/core/MessagingEngine.java:134 | the release count grows by exactly one; the owned set is unchanged |

## Left out

- Message delivery: `startMessageDelivery`, `stopMessageDelivery`, the `TaskExecutorService` worker pool, its thread factory, `WORKER_COUNT` and `IDLE_TASK_DELAY_MILLIS` are concurrency and timing plumbing. The task service is modelled only as the set of queue names with a registered task.
- Concurrency: the `ConcurrentHashMap` and the `AtomicLong` are a plain map field and an integer field, and every operation runs to completion on its own.
- Routing: `Exchange.getBindingsForRoute` is the constructor parameter `route`. Direct, topic and fanout matching are not modelled. The scenarios use exact-match routing only as an example.
- Exchange registry: `ExchangeRegistry.java` and `Exchange.java` are not part of this model. `Exchanges` therefore rests on these assumptions of the model, none of them checked against code:
  - the type names are "direct", "topic" and "fanout", and any other name fails with UnknownExchangeType;
  - the default exchange has the empty name, is direct and is durable;
  - deleting the default exchange fails with DefaultExchangeReserved;
  - deleting a missing exchange succeeds and changes nothing;
  - an existing exchange with ifUnused and bindings is not deleted (ExchangeInUse);
  - a declare conflicts (ExchangeConflict) exactly when it is active and the type or durability differs, and a passive declare of a missing exchange fails with UnknownExchange;
  - the type given to `deleteExchange` is only parsed, not compared with the exchange's type.
- Engine.MessagingEngine.constructor: assumes one engine per process. In the source `DEFAULT_EXCHANGE` is a static singleton that every `ExchangeRegistry` shares, so bindings made through one engine would be visible to another. The model gives each engine its own registry whose "" entry stands for that singleton, with no bindings when the engine is built.
- Queue handler internals: `QueueHandler.java` is not part of this model. Delivery to consumers (dequeue, delivery-tag assignment, round-robin) is not modelled. So nothing fills the in-flight map, and acknowledgement is stated over whatever in-flight map a handler holds. Releasing acknowledged messages is not modelled.
- Closing consumers: the consumers a queue deletion closes are returned to the caller rather than notified.
- Message internals: `Message.java` and `Metadata.java` are not part of this model. Reference-counted release is a release counter. The metadata's owned-queue set sits on the message.
- Iteration order: Java set iteration order is unspecified. `Publish` returns the order it used as a ghost result, and its contract holds for that order. `Publishing.FanOutOrderIndependent` shows that the outcome does not depend on it.
- Consumers are identified by a number and their queue name, not by object identity.
- Java `null` arguments and logging are not modelled.
- Engine.MessagingEngine.Acknowledge: requires the queue to be registered. The source dereferences the handler without a null check (lines 143-144), so a missing queue throws a NullPointerException that the model does not represent.
- Engine.MessagingEngine.Publish: requires every routed binding to name a registered queue. `deleteQueue` leaves a deleted queue's bindings in place (lines 160-162), and `publish` dereferences the handler without a null check (lines 130-132). The failure that follows is not represented.
- MessageIds.IdsFromFreshCounter: strict increase is stated for the first 2^63-1 ids only. After that the 64-bit counter wraps to its smallest value, as `NextId` states.
