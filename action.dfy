/**
 * One run of the action (`run`): read the parameters, then either delete the
 * service by identifier and judge the deletion by its status code, or find
 * or create it and post its outputs.
 */
module Action {
  import opened JsValues
  import opened Conversion
  import opened Registry
  import opened Search
  import opened Reconcile
  import opened Inputs
  import opened Identity

  /** `response.$metadata.httpStatusCode === 200`, and what the run makes of
      it: the response on success, a deletion failure otherwise; reading the
      status off a response or metadata that is undefined or null throws. */
  function DeleteStatus(response: Val): Result<Val>
  {
    if Nullish(response) then Throw(TypeError)
    else
      var metadata := Get(response, "$metadata");
      if Nullish(metadata) then Throw(TypeError)
      else if StrictEquals(Get(metadata, "httpStatusCode"), Num(200)) then Ok(response)
      else Throw(DeleteFailed(response))
  }

  /** A deletion succeeds exactly when the response reports status 200, and
      then the run returns that response; a response with metadata reporting
      any other status is a deletion failure carrying the response; a response
      or metadata that is undefined or null is a type error. */
  lemma DeleteSucceedsExactlyOn200(response: Val)
    ensures DeleteStatus(response).Ok? <==>
      && response.Obj? && "$metadata" in response.fields
      && response.fields["$metadata"].Obj?
      && "httpStatusCode" in response.fields["$metadata"].fields
      && response.fields["$metadata"].fields["httpStatusCode"] == Num(200)
    ensures DeleteStatus(response).Ok? ==> DeleteStatus(response).value == response
    ensures DeleteStatus(response).Throw? ==>
      (DeleteStatus(response).exception == DeleteFailed(response) <==>
         !Nullish(response) && !Nullish(Get(response, "$metadata")))
    ensures Nullish(response) || Nullish(Get(response, "$metadata")) ==> DeleteStatus(response) == Throw(TypeError)
  {
  }

  /** The test suite's two deletion responses (index.test.js:117-130): status
      200 succeeds, status 500 fails. */
  lemma DeleteStatusExamples(fields: map<string, Val>)
    ensures var ok := Obj(fields["$metadata" := Obj(map["httpStatusCode" := Num(200)])]);
      DeleteStatus(ok) == Ok(ok)
    ensures var failed := Obj(fields["$metadata" := Obj(map["httpStatusCode" := Num(500)])]);
      DeleteStatus(failed) == Throw(DeleteFailed(failed))
  {
  }

  /** What a run ends with: its result, every command sent to the registry,
      and every output set. */
  datatype Outcome = Outcome(result: Result<Val>, calls: seq<Call>, outputs: seq<(string, Val)>)

  /** The delete command for the parameters. */
  function DeleteCall(parameters: map<string, Val>): Call
  {
    DeleteService(Obj(DeleteServiceInputs(parameters)))
  }

  /** `run()`, given the commands sent and the outputs set before. */
  function RunOutcome(respond: (seq<Call>, Call) -> Reply, calls: seq<Call>, outputs: seq<(string, Val)>,
                      inputs: map<string, string>, parse: string -> ParseResult, fuel: nat): Outcome
  {
    match ParametersOf(inputs, parse)
    case Throw(e) => Outcome(Throw(e), calls, outputs)
    case Ok(parameters) =>
      if Field(parameters, "action") == Str("delete") then
        var c := DeleteCall(parameters);
        match respond(calls, c)
        case Rejected(reason) => Outcome(Throw(Rejection(reason)), calls + [c], outputs)
        case Resolved(response) =>
          // the response is posted before its status is looked at
          Outcome(DeleteStatus(response), calls + [c], outputs + [("response", response)])
      else
        var (found, after) := CreateDescribe(respond, calls, parameters, fuel);
        match found
        case Throw(_) => Outcome(found, after, outputs)
        case Ok(response) =>
          match PostedOutputs(response)
          case Throw(e) => Outcome(Throw(e), after, outputs)
          case Ok(posted) => Outcome(found, after, outputs + posted)
  }

  /** `run()`, with the registry reached through the client and the outputs
      set on `out`. */
  method Run(client: Client, out: Outputs, inputs: map<string, string>,
             parse: string -> ParseResult, fuel: nat) returns (r: Result<Val>)
    modifies client, out
    ensures Outcome(r, client.calls, out.entries)
         == RunOutcome(client.respond, old(client.calls), old(out.entries), inputs, parse, fuel)
  {
    var parameters := GetParameters(inputs, parse);
    if parameters.Throw? {
      return Throw(parameters.exception);
    }
    var p := parameters.value;
    if Field(p, "action") == Str("delete") {
      var reply := client.Send(DeleteCall(p));
      if reply.Rejected? {
        return Throw(Rejection(reply.reason));
      }
      out.SetOutput("response", reply.value);
      r := DeleteStatus(reply.value);
    } else {
      var found := CreateDescribeService(client, p, fuel);
      if found.Throw? {
        return found;
      }
      var posted := PostToGithub(out, found.value);
      if posted.Throw? {
        return Throw(posted.exception);
      }
      r := found;
    }
  }

  /** The action `delete` sends exactly one command, the delete of the
      identifier alone, posts the response whatever its status, and then
      returns the response when the status is 200 and fails with a deletion
      failure otherwise. */
  lemma DeleteRunDeletesOnce(respond: (seq<Call>, Call) -> Reply, calls: seq<Call>,
                             outputs: seq<(string, Val)>, inputs: map<string, string>,
                             parse: string -> ParseResult, fuel: nat)
    requires ParametersOf(inputs, parse).Ok?
    requires Input(inputs, "action") == "delete"
    ensures var o := RunOutcome(respond, calls, outputs, inputs, parse, fuel);
      var parameters := ParametersOf(inputs, parse).value;
      && o.calls == calls + [DeleteService(Obj(map["Id" := Field(parameters, "Id")]))]
      && (respond(calls, o.calls[|calls|]).Resolved? ==>
            var response := respond(calls, o.calls[|calls|]).value;
            && o.outputs == outputs + [("response", response)]
            && o.result == DeleteStatus(response))
      && (respond(calls, o.calls[|calls|]).Rejected? ==>
            o.outputs == outputs && o.result == Throw(Rejection(respond(calls, o.calls[|calls|]).reason)))
  {
    ParametersHoldTextInputs(inputs, parse);
    var parameters := ParametersOf(inputs, parse).value;
    assert Field(parameters, "action") == Str("delete");
  }

  /** A run whose action is not `delete` is the find-or-create followed, on
      success, by posting the outputs of what it returned: a failed
      find-or-create fails the run with its error, a found or created service
      whose ARN and identifier can be read is returned with its three outputs
      posted, and one whose ARN or identifier cannot be read fails the run
      with nothing posted. */
  lemma FindOrCreateRun(respond: (seq<Call>, Call) -> Reply, calls: seq<Call>,
                        outputs: seq<(string, Val)>, inputs: map<string, string>,
                        parse: string -> ParseResult, fuel: nat)
    requires ParametersOf(inputs, parse).Ok?
    requires Field(ParametersOf(inputs, parse).value, "action") != Str("delete")
    ensures var o := RunOutcome(respond, calls, outputs, inputs, parse, fuel);
      var (r, after) := CreateDescribe(respond, calls, ParametersOf(inputs, parse).value, fuel);
      && o.calls == after
      && (r.Throw? ==> o.result == r && o.outputs == outputs)
      && (r.Ok? && PostedOutputs(r.value).Ok? ==>
            o.result == r && o.outputs == outputs + PostedOutputs(r.value).value)
      && (r.Ok? && PostedOutputs(r.value).Throw? ==>
            o.result == Throw(PostedOutputs(r.value).exception) && o.outputs == outputs)
  {
  }

  /** Any other action finds or creates the service: no delete is sent, at
      most one create is, as the last command; a failed find-or-create fails
      the run, and a found or created service is returned with its three
      outputs posted after whatever was posted before, unless its ARN or
      identifier cannot be read, in which case nothing is posted. */
  lemma OtherRunNeverDeletes(respond: (seq<Call>, Call) -> Reply, calls: seq<Call>,
                             outputs: seq<(string, Val)>, inputs: map<string, string>,
                             parse: string -> ParseResult, fuel: nat)
    requires ParametersOf(inputs, parse).Ok?
    requires Input(inputs, "action") != "delete"
    ensures var o := RunOutcome(respond, calls, outputs, inputs, parse, fuel);
      var parameters := ParametersOf(inputs, parse).value;
      var (r, after) := CreateDescribe(respond, calls, parameters, fuel);
      && o.calls == after
      && |calls| <= |o.calls| && o.calls[..|calls|] == calls
      && (forall i | |calls| <= i < |o.calls| :: !o.calls[i].DeleteService?)
      && (forall i | |calls| <= i < |o.calls| && o.calls[i].CreateService? ::
            i == |o.calls| - 1 && o.calls[i] == CreateCall(parameters))
      && (r.Throw? ==> o.result == r && o.outputs == outputs)
      && (r.Ok? && PostedOutputs(r.value).Ok? ==>
            o.result == r && o.outputs == outputs + PostedOutputs(r.value).value)
      && (r.Ok? && PostedOutputs(r.value).Throw? ==>
            o.result == Throw(PostedOutputs(r.value).exception) && o.outputs == outputs)
  {
    var parameters := ParametersOf(inputs, parse).value;
    assert Field(parameters, "action") != Str("delete") by {
      ParametersHoldTextInputs(inputs, parse);
    }
    FindOrCreateRun(respond, calls, outputs, inputs, parse, fuel);
    CreatesOnlyAfterNotFound(respond, calls, parameters, fuel);
  }

  /** A run whose parameters cannot be read sends nothing and posts nothing. */
  lemma BadParametersRunNothing(respond: (seq<Call>, Call) -> Reply, calls: seq<Call>,
                                outputs: seq<(string, Val)>, inputs: map<string, string>,
                                parse: string -> ParseResult, fuel: nat)
    requires ParametersOf(inputs, parse).Throw?
    ensures RunOutcome(respond, calls, outputs, inputs, parse, fuel)
         == Outcome(Throw(ParametersOf(inputs, parse).exception), calls, outputs)
  {
  }
}
