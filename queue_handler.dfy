/**
 * The queue handler as the engine sees it: flags fixed at creation, a
 * bounded store of ready messages, the delivered-but-unacknowledged
 * messages keyed by delivery tag, and the set of registered consumers.
 */
module Queues {
  import opened BrokerTypes
  import opened Messages

  /** Capacity the engine gives every queue it creates. */
  const DefaultCapacity: nat := 1000

  /** A consumer is registered against the queue it names. */
  datatype Consumer = Consumer(id: nat, queueName: QueueName)

  datatype QueueHandler = QueueHandler(
    name: QueueName,
    durable: bool,
    autoDelete: bool,
    capacity: nat,
    ready: seq<Message>,
    unacked: map<int, Message>,
    consumers: set<Consumer>)

  /** Messages the queue currently holds, ready or in flight. */
  function Size(q: QueueHandler): nat
  {
    |q.ready| + |q.unacked|
  }

  /** The capacity bound every handler keeps. */
  ghost predicate Bounded(q: QueueHandler)
  {
    Size(q) <= q.capacity
  }

  /** Room left before an enqueue is refused. */
  function Free(q: QueueHandler): (n: nat)
    requires Bounded(q)
    ensures n == 0 <==> Size(q) == q.capacity
  {
    q.capacity - Size(q)
  }

  predicate IsUnused(q: QueueHandler)
  {
    q.consumers == {}
  }

  predicate IsEmpty(q: QueueHandler)
  {
    q.ready == [] && q.unacked == map[]
  }

  /** The handler the engine creates for a queue it has never seen. */
  function NewQueue(name: QueueName, durable: bool, autoDelete: bool): (q: QueueHandler)
    ensures q.name == name && q.durable == durable && q.autoDelete == autoDelete
    ensures q.capacity == DefaultCapacity
    ensures IsEmpty(q) && IsUnused(q) && Bounded(q)
  {
    QueueHandler(name, durable, autoDelete, DefaultCapacity, [], map[], {})
  }

  datatype EnqueueResult = EnqueueResult(accepted: bool, queue: QueueHandler)

  /**
   * Enqueue succeeds exactly when the queue is below capacity; a refused
   * message leaves the queue as it was.
   */
  function Enqueue(q: QueueHandler, m: Message): (r: EnqueueResult)
    ensures r.accepted <==> Size(q) < q.capacity
    ensures r.accepted ==> r.queue == q.(ready := q.ready + [m])
    ensures !r.accepted ==> r.queue == q
    ensures Bounded(q) ==> Bounded(r.queue)
    ensures r.accepted ==> Size(r.queue) == Size(q) + 1
  {
    if Size(q) < q.capacity then EnqueueResult(true, q.(ready := q.ready + [m]))
    else EnqueueResult(false, q)
  }

  /** The delivery tags an acknowledgement settles. */
  ghost predicate Settles(tag: int, multiple: bool, t: int)
  {
    t == tag || (multiple && t <= tag)
  }

  /**
   * Acknowledgement removes the tagged in-flight message and, for a
   * multiple ack, every in-flight message with a lower tag; unknown tags
   * are ignored.
   */
  function Acknowledge(q: QueueHandler, tag: int, multiple: bool): (r: QueueHandler)
    ensures forall t :: t in r.unacked <==> t in q.unacked && !Settles(tag, multiple, t)
    ensures forall t | t in r.unacked :: r.unacked[t] == q.unacked[t]
    ensures r == q.(unacked := r.unacked)
    ensures Size(r) <= Size(q)
    ensures Bounded(q) ==> Bounded(r)
  {
    var kept := map t | t in q.unacked && !(t == tag || (multiple && t <= tag)) :: q.unacked[t];
    assert kept.Keys <= q.unacked.Keys;
    SubsetCardinality(kept.Keys, q.unacked.Keys);
    q.(unacked := kept)
  }

  lemma {:induction false} SubsetCardinality<T>(a: set<T>, b: set<T>)
    requires a <= b
    ensures |a| <= |b|
  {
    if a != {} {
      var x :| x in a;
      SubsetCardinality(a - {x}, b - {x});
    }
  }

  function AddConsumer(q: QueueHandler, c: Consumer): (r: QueueHandler)
    ensures r.consumers == q.consumers + {c}
    ensures !IsUnused(r)
    ensures r == q.(consumers := r.consumers)
  {
    q.(consumers := q.consumers + {c})
  }

  function RemoveConsumer(q: QueueHandler, c: Consumer): (r: QueueHandler)
    ensures r.consumers == q.consumers - {c}
    ensures r == q.(consumers := r.consumers)
  {
    q.(consumers := q.consumers - {c})
  }

  /** Closing a consumer that was just added restores the handler. */
  lemma RemoveUndoesAdd(q: QueueHandler, c: Consumer)
    requires c !in q.consumers
    ensures RemoveConsumer(AddConsumer(q, c), c) == q
  {
  }
}
