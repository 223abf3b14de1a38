/**
 * Parameter conversion: the projections of the parameter record onto the
 * fields each registry call accepts, and the choice of the namespace the
 * service lives in.
 */
module Conversion {
  import opened JsValues

  /** The properties the create call accepts. */
  const CreateKeys: set<string> :=
    {"Name", "Description", "DnsConfig", "HealthCheckConfig",
     "HealthCheckCustomConfig", "NamespaceId", "Tags", "Type"}

  const BothNamespacesMessage: string :=
    "`namespace-id` must be defined either as an input, or as part of `dns-config` (not both)."

  const NoNamespaceMessage: string :=
    "`namespace-id` must be defined either as an input, or as part of `dns-config`."

  /** The object without its undefined-valued properties. */
  function OmitUndefined(obj: map<string, Val>): (r: map<string, Val>)
    ensures forall k :: k in r <==> k in obj && obj[k] != Undefined
    ensures forall k | k in r :: r[k] == obj[k]
  {
    map k | k in obj && obj[k] != Undefined :: obj[k]
  }

  /** The create call's input: the eight accepted properties of the
      parameters, those that are undefined left out. */
  function CreateServiceInputs(parameters: map<string, Val>): (r: map<string, Val>)
    ensures forall k :: k in r <==> k in CreateKeys && k in parameters && parameters[k] != Undefined
    ensures forall k | k in r :: r[k] == parameters[k]
    ensures "action" !in r && "Id" !in r
  {
    OmitUndefined(map k | k in CreateKeys :: Field(parameters, k))
  }

  /** The delete call's input: the identifier alone, even when undefined. */
  function DeleteServiceInputs(parameters: map<string, Val>): (r: map<string, Val>)
    ensures r.Keys == {"Id"}
    ensures r["Id"] == Field(parameters, "Id")
  {
    map["Id" := Field(parameters, "Id")]
  }

  /** `parameters.DnsConfig ? parameters.DnsConfig.NamespaceId : undefined` */
  function DnsNamespaceId(parameters: map<string, Val>): (r: Val)
    ensures r != Undefined
            ==> Field(parameters, "DnsConfig").Obj? && "NamespaceId" in Field(parameters, "DnsConfig").fields
    ensures Field(parameters, "DnsConfig").Obj?
            ==> r == Field(Field(parameters, "DnsConfig").fields, "NamespaceId")
  {
    var dns := Field(parameters, "DnsConfig");
    if Truthy(dns) then Get(dns, "NamespaceId") else Undefined
  }

  /** The namespace identifier, which must come from exactly one of the
      top-level `NamespaceId` and `DnsConfig.NamespaceId`; an empty string
      counts as absent. */
  function NamespaceId(parameters: map<string, Val>): (r: Result<Val>)
    ensures var root, dns := Field(parameters, "NamespaceId"), DnsNamespaceId(parameters);
      && (r.Ok? <==> Truthy(root) != Truthy(dns))
      && (Truthy(root) && !Truthy(dns) ==> r == Ok(root))
      && (!Truthy(root) && Truthy(dns) ==> r == Ok(dns))
      && (Truthy(root) && Truthy(dns) ==> r == Throw(PlainError(BothNamespacesMessage)))
      && (!Truthy(root) && !Truthy(dns) ==> r == Throw(PlainError(NoNamespaceMessage)))
  {
    var root := Field(parameters, "NamespaceId");
    var dns := DnsNamespaceId(parameters);
    match (Truthy(root), Truthy(dns))
    case (true, false) => Ok(root)
    case (false, true) => Ok(dns)
    case (true, true) => Throw(PlainError(BothNamespacesMessage))
    case (false, false) => Throw(PlainError(NoNamespaceMessage))
  }

  /** Whatever the source, the namespace used is never empty. */
  lemma NamespaceIdIsTruthy(parameters: map<string, Val>)
    ensures NamespaceId(parameters).Ok? ==> Truthy(NamespaceId(parameters).value)
  {
  }

  /** The four cases exercised by the test suite. */
  lemma NamespaceIdExamples()
    ensures NamespaceId(map["NamespaceId" := Str("abc123")]) == Ok(Str("abc123"))
    ensures NamespaceId(map["DnsConfig" := Obj(map["NamespaceId" := Str("abc123")])]) == Ok(Str("abc123"))
    ensures NamespaceId(map["NamespaceId" := Str("xyz456"), "DnsConfig" := Obj(map["NamespaceId" := Str("abc123")])])
         == Throw(PlainError(BothNamespacesMessage))
    ensures NamespaceId(map[]) == Throw(PlainError(NoNamespaceMessage))
  {
  }
}
