/**
 * Exchanges and the exchange registry as the engine uses them: an exchange
 * holds a set of bindings, the registry maps names to exchanges and always
 * holds the default exchange. The registry's own source is not part of
 * this model: the type names, the default exchange's empty name and
 * durable flag, and the declare and delete rules below are assumptions of
 * this model about that registry.
 */
module Exchanges {
  import opened BrokerTypes

  datatype ExchangeType = Direct | Topic | Fanout

  /** A queue bound to an exchange under a routing key. */
  datatype Binding = Binding(queueName: QueueName, routingKey: RoutingKey)

  datatype Exchange = Exchange(
    name: ExchangeName,
    kind: ExchangeType,
    durable: bool,
    bindings: set<Binding>)

  type Registry = map<ExchangeName, Exchange>

  /** Name under which the default exchange is registered. */
  const DefaultExchangeName: ExchangeName := ""

  function TypeName(t: ExchangeType): string
  {
    match t
    case Direct => "direct"
    case Topic => "topic"
    case Fanout => "fanout"
  }

  /** Parses an exchange type name; an unknown name is a distinct error. */
  function ParseExchangeType(s: string): (r: Result<ExchangeType>)
    ensures r.Ok? <==> s in {"direct", "topic", "fanout"}
    ensures r.Ok? ==> TypeName(r.value) == s
    ensures r.Err? ==> r.error == UnknownExchangeType
  {
    if s == "direct" then Ok(Direct)
    else if s == "topic" then Ok(Topic)
    else if s == "fanout" then Ok(Fanout)
    else Err(UnknownExchangeType)
  }

  /** Every type name parses back to its type. */
  lemma ParseTypeName(t: ExchangeType)
    ensures ParseExchangeType(TypeName(t)) == Ok(t)
  {
  }

  function Bind(e: Exchange, queueName: QueueName, routingKey: RoutingKey): (r: Exchange)
    ensures r.bindings == e.bindings + {Binding(queueName, routingKey)}
    ensures r == e.(bindings := r.bindings)
  {
    e.(bindings := e.bindings + {Binding(queueName, routingKey)})
  }

  function Unbind(e: Exchange, queueName: QueueName, routingKey: RoutingKey): (r: Exchange)
    ensures r.bindings == e.bindings - {Binding(queueName, routingKey)}
    ensures r == e.(bindings := r.bindings)
  {
    e.(bindings := e.bindings - {Binding(queueName, routingKey)})
  }

  /** Unbinding a triple that was just bound restores the exchange. */
  lemma UnbindUndoesBind(e: Exchange, queueName: QueueName, routingKey: RoutingKey)
    requires Binding(queueName, routingKey) !in e.bindings
    ensures Unbind(Bind(e, queueName, routingKey), queueName, routingKey) == e
  {
  }

  /** Binding the same triple twice is the same as binding it once. */
  lemma BindIdempotent(e: Exchange, queueName: QueueName, routingKey: RoutingKey)
    ensures Bind(Bind(e, queueName, routingKey), queueName, routingKey) == Bind(e, queueName, routingKey)
  {
  }

  /** The registry invariant: the default direct exchange is present and names match keys. */
  ghost predicate WellFormed(reg: Registry)
  {
    && DefaultExchangeName in reg
    && reg[DefaultExchangeName].kind == Direct
    && forall n | n in reg :: reg[n].name == n
  }

  function NewRegistry(): (reg: Registry)
    ensures WellFormed(reg)
    ensures reg.Keys == {DefaultExchangeName} && reg[DefaultExchangeName].bindings == {}
  {
    map[DefaultExchangeName := Exchange(DefaultExchangeName, Direct, true, {})]
  }

  /**
   * Declares an exchange. A missing exchange is created unless the declare
   * is passive; an existing one must match in type and durability unless
   * the declare is passive; a passive declare never changes the registry.
   */
  function Declare(reg: Registry, name: ExchangeName, kind: ExchangeType, passive: bool, durable: bool)
    : (r: Result<Registry>)
    ensures name !in reg ==>
      (passive ==> r == Err(UnknownExchange)) &&
      (!passive ==> r.Ok? && r.value == reg[name := Exchange(name, kind, durable, {})])
    ensures name in reg ==>
      (r.Err? <==> !passive && (reg[name].kind != kind || reg[name].durable != durable)) &&
      (r.Err? ==> r.error == ExchangeConflict) &&
      (r.Ok? ==> r.value == reg)
    ensures passive && r.Ok? ==> r.value == reg
    ensures r.Ok? && WellFormed(reg) ==> WellFormed(r.value)
  {
    if name !in reg then
      if passive then Err(UnknownExchange) else Ok(reg[name := Exchange(name, kind, durable, {})])
    else if !passive && (reg[name].kind != kind || reg[name].durable != durable) then
      Err(ExchangeConflict)
    else
      Ok(reg)
  }

  /** Redeclaring with the same arguments after a successful declare changes nothing. */
  lemma DeclareIdempotent(reg: Registry, name: ExchangeName, kind: ExchangeType, passive: bool, durable: bool)
    requires Declare(reg, name, kind, passive, durable).Ok?
    ensures var reg' := Declare(reg, name, kind, passive, durable).value;
      Declare(reg', name, kind, passive, durable) == Ok(reg')
  {
  }

  /**
   * Deletes an exchange. The default exchange is never deleted; a missing
   * exchange is left alone; with ifUnused an exchange that still has
   * bindings is kept.
   */
  function Delete(reg: Registry, name: ExchangeName, ifUnused: bool): (r: Result<Registry>)
    ensures name == DefaultExchangeName ==> r == Err(DefaultExchangeReserved)
    ensures name != DefaultExchangeName && name !in reg ==> r == Ok(reg)
    ensures name != DefaultExchangeName && name in reg ==>
      (r.Err? <==> ifUnused && reg[name].bindings != {}) &&
      (r.Err? ==> r.error == ExchangeInUse) &&
      (r.Ok? ==> r.value == reg - {name})
    ensures r.Ok? && WellFormed(reg) ==> WellFormed(r.value)
  {
    if name == DefaultExchangeName then Err(DefaultExchangeReserved)
    else if name !in reg then Ok(reg)
    else if ifUnused && reg[name].bindings != {} then Err(ExchangeInUse)
    else Ok(reg - {name})
  }
}
