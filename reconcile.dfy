/**
 * The find-or-create decision (`createDescribeService`): search for the
 * service; return it when found; create it, once, when the search reports
 * an error named `NotFoundException`; pass any other error on.
 */
module Reconcile {
  import opened JsValues
  import opened Conversion
  import opened Registry
  import opened Search

  /** The catch clause's test `err.name === 'NotFoundException'`. */
  predicate NamedNotFound(e: Exception)
    requires !(e.Rejection? && Nullish(e.reason))
  {
    StrictEquals(ErrorName(e), Str("NotFoundException"))
  }

  /** The create command for the parameters. */
  function CreateCall(parameters: map<string, Val>): Call
  {
    CreateService(Obj(CreateServiceInputs(parameters)))
  }

  /** How a sent command's reply becomes the awaited result. */
  function Await(reply: Reply): Result<Val>
  {
    match reply
    case Resolved(v) => Ok(v)
    case Rejected(reason) => Throw(Rejection(reason))
  }

  /** `createDescribeService(client, parameters)`: the result and the commands
      sent, given those sent before. */
  function CreateDescribe(respond: (seq<Call>, Call) -> Reply, log: seq<Call>,
                          parameters: map<string, Val>, fuel: nat): (Result<Val>, seq<Call>)
  {
    var (found, searched) := Describe(respond, log, parameters, Undefined, fuel);
    match found
    case Ok(_) => (found, searched)
    case Throw(e) =>
      if e.Rejection? && Nullish(e.reason) then
        // reading `err.name` off undefined or null throws
        (Throw(TypeError), searched)
      else if NamedNotFound(e) then
        var c := CreateCall(parameters);
        (Await(respond(searched, c)), searched + [c])
      else (found, searched)
  }

  /** `createDescribeService`, sending its commands through the client. */
  method CreateDescribeService(client: Client, parameters: map<string, Val>, fuel: nat)
      returns (r: Result<Val>)
    modifies client
    ensures (r, client.calls) == CreateDescribe(client.respond, old(client.calls), parameters, fuel)
  {
    var found := DescribeService(client, parameters, Undefined, fuel);
    if found.Ok? {
      return found;
    }
    var e := found.exception;
    if e.Rejection? && Nullish(e.reason) {
      return Throw(TypeError);
    }
    if NamedNotFound(e) {
      var reply := client.Send(CreateCall(parameters));
      r := Await(reply);
    } else {
      r := found;
    }
  }

  /** Find-or-create sends only listings, then at most one create, as its last
      command, exactly when the search failed with an error named
      `NotFoundException`, and with the create inputs projected from the
      parameters; the create's settlement is then the result. A found service
      is returned as found; a rejection with an undefined or null reason
      becomes a type error (its `name` cannot be read); any other error is
      passed on unchanged. */
  lemma CreatesOnlyAfterNotFound(respond: (seq<Call>, Call) -> Reply, log: seq<Call>,
                                 parameters: map<string, Val>, fuel: nat)
    ensures var (r, calls) := CreateDescribe(respond, log, parameters, fuel);
      var (found, searched) := Describe(respond, log, parameters, Undefined, fuel);
      && |log| <= |calls| && calls[..|log|] == log
      && (forall i | |log| <= i < |calls| - 1 :: calls[i].ListServices?)
      && (forall i | |log| <= i < |calls| :: calls[i].ListServices? || calls[i].CreateService?)
      && (forall i | |log| <= i < |calls| && calls[i].CreateService? ::
            i == |calls| - 1 && calls[i] == CreateCall(parameters))
      && ((exists i | |log| <= i < |calls| :: calls[i].CreateService?) <==>
            found.Throw? && !(found.exception.Rejection? && Nullish(found.exception.reason))
            && NamedNotFound(found.exception))
      && (found.Ok? ==> r == found && calls == searched)
      && (found.Throw? && !(found.exception.Rejection? && Nullish(found.exception.reason))
          && NamedNotFound(found.exception)
          ==> r == Await(respond(searched, CreateCall(parameters))))
      && (found.Throw? && found.exception.Rejection? && Nullish(found.exception.reason)
          ==> r == Throw(TypeError) && calls == searched)
      && (found.Throw? && !(found.exception.Rejection? && Nullish(found.exception.reason))
          && !NamedNotFound(found.exception)
          ==> r == found && calls == searched)
  {
    DescribeRepeatsOneRequest(respond, log, parameters, Undefined, fuel);
    var (found, searched) := Describe(respond, log, parameters, Undefined, fuel);
    var (r, calls) := CreateDescribe(respond, log, parameters, fuel);
    assert forall i | |log| <= i < |searched| :: searched[i].ListServices?;
    if found.Throw? && !(found.exception.Rejection? && Nullish(found.exception.reason))
       && NamedNotFound(found.exception) {
      assert calls == searched + [CreateCall(parameters)];
      assert calls[..|log|] == searched[..|log|];
      assert calls[|calls| - 1].CreateService?;
    }
  }

  /** Idempotence: when the first page lists the service, it is returned after
      one listing and nothing is created. */
  lemma NoCreateWhenListed(respond: (seq<Call>, Call) -> Reply, log: seq<Call>,
                           parameters: map<string, Val>, services: seq<Val>, nextToken: Val,
                           m: nat, fuel: nat)
    requires NamespaceId(parameters).Ok? && Field(parameters, "Name").Str?
    requires respond(log, ListCall(NamespaceId(parameters).value, Undefined)).Resolved?
    requires ListsPage(respond(log, ListCall(NamespaceId(parameters).value, Undefined)).value, services, nextToken)
    requires FirstListedAt(services, Field(parameters, "Name"), m)
    requires fuel > 0
    ensures CreateDescribe(respond, log, parameters, fuel)
         == (Ok(services[m]), log + [ListCall(NamespaceId(parameters).value, Undefined)])
  {
    FirstListedIsFound(services, Field(parameters, "Name"), m);
    assert Truthy(services[m]);
  }

  /** When the only page does not list the service, find-or-create sends one
      listing and then one create with the projected inputs, and returns what
      the create resolves to. */
  lemma CreatesWhenAbsent(respond: (seq<Call>, Call) -> Reply, log: seq<Call>,
                          parameters: map<string, Val>, services: seq<Val>, created: Val, fuel: nat)
    requires NamespaceId(parameters).Ok?
    requires respond(log, ListCall(NamespaceId(parameters).value, Undefined)).Resolved?
    requires ListsPage(respond(log, ListCall(NamespaceId(parameters).value, Undefined)).value, services, Undefined)
    requires NotListed(services, Field(parameters, "Name"))
    requires respond(log + [ListCall(NamespaceId(parameters).value, Undefined)], CreateCall(parameters)) == Resolved(created)
    requires fuel > 0
    ensures CreateDescribe(respond, log, parameters, fuel)
         == (Ok(created), log + [ListCall(NamespaceId(parameters).value, Undefined), CreateCall(parameters)])
  {
    var name := Field(parameters, "Name");
    var c := ListCall(NamespaceId(parameters).value, Undefined);
    FindServiceIsFirstMatch(services, name);
    assert InspectPage(respond(log, c), name) == Finished(Throw(NotFoundException(NotFoundMessage(name))));
    assert Describe(respond, log, parameters, Undefined, fuel)
        == (Throw(NotFoundException(NotFoundMessage(name))), log + [c]);
    assert log + [c] + [CreateCall(parameters)] == log + [c, CreateCall(parameters)];
  }
}
