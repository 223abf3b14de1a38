/**
 * The registry client as the action sees it: it sends one command at a
 * time and gets back the value the call resolves to or the value it
 * rejects with. The registry itself is an oracle that may answer according
 * to everything sent before, so a registry that changes between calls (or
 * a scripted test double) is covered as well as a fixed one.
 */
module Registry {
  import opened JsValues

  /** One command sent to the registry, with its input object. */
  datatype Call =
    | ListServices(input: Val)
    | CreateService(input: Val)
    | DeleteService(input: Val)

  /** How a sent command settles. */
  datatype Reply = Resolved(value: Val) | Rejected(reason: Val)

  /** The filter every listing carries: the namespace, compared for equality. */
  function NamespaceFilter(namespaceId: Val): Val
  {
    Obj(map["Condition" := Str("EQ"), "Name" := Str("NAMESPACE_ID"), "Values" := Arr([namespaceId])])
  }

  /** The listing input: the namespace filter, plus the continuation token
      when one is given (a truthy one). */
  function ListServicesInput(namespaceId: Val, nextToken: Val): (r: Val)
    ensures r.Obj?
    ensures "Filters" in r.fields && r.fields["Filters"] == Arr([NamespaceFilter(namespaceId)])
    ensures "NextToken" in r.fields <==> Truthy(nextToken)
    ensures "NextToken" in r.fields ==> r.fields["NextToken"] == nextToken
    ensures r.fields.Keys <= {"Filters", "NextToken"}
  {
    var base := map["Filters" := Arr([NamespaceFilter(namespaceId)])];
    if Truthy(nextToken) then Obj(base["NextToken" := nextToken]) else Obj(base)
  }

  /** The service discovery client, with the log of every command it sent. */
  class Client {
    var calls: seq<Call>
    const respond: (seq<Call>, Call) -> Reply

    constructor (respond: (seq<Call>, Call) -> Reply)
      ensures calls == [] && this.respond == respond
    {
      calls := [];
      this.respond := respond;
    }

    /** `client.send(command)` */
    method Send(c: Call) returns (reply: Reply)
      modifies this`calls
      ensures calls == old(calls) + [c]
      ensures reply == respond(old(calls), c)
    {
      reply := respond(calls, c);
      calls := calls + [c];
    }
  }
}
