/** Names and failures shared by every part of the broker core. */
module BrokerTypes {

  type QueueName = string
  type ExchangeName = string
  type RoutingKey = string

  /**
   * The conditions the engine reports to its caller. The source throws one
   * exception type with a descriptive message; each distinct cause gets its
   * own constructor here.
   */
  datatype BrokerError =
    | UnknownExchange
    | UnknownQueue
    | UnknownExchangeType
    | QueueConflict
    | QueueInUse
    | QueueNotEmpty
    | ExchangeConflict
    | ExchangeInUse
    | DefaultExchangeReserved

  /** Outcome of an operation that returns nothing but may fail. */
  datatype Outcome = Pass | Fail(error: BrokerError)

  /** Outcome of an operation that computes a value or fails. */
  datatype Result<T> = Ok(value: T) | Err(error: BrokerError)
}
