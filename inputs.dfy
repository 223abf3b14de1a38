/**
 * Reading the action's parameters (`getParameters`): six text inputs, four
 * JSON inputs parsed only when supplied, and finally every property whose
 * value is the empty string dropped. The workflow's inputs are a map from
 * input name to text (an input not given reads as empty text), and the JSON
 * parser is a parameter, since its grammar is not part of this model.
 */
module Inputs {
  import opened JsValues

  /** How `JSON.parse(s)` ends: with a value, or by throwing. */
  datatype ParseResult = Parsed(value: Val) | Threw(error: Exception)

  /** A parameter property together with the name of the input it is read from. */
  datatype InputField = InputField(key: string, name: string)

  /** `core.getInput(name)`: the text supplied for the input, empty when none was. */
  function Input(inputs: map<string, string>, name: string): string
  {
    if name in inputs then inputs[name] else ""
  }

  /** The plain-text parameters other than `action`. */
  const TextInputs: seq<InputField> :=
    [InputField("Name", "name"), InputField("Description", "description"),
     InputField("NamespaceId", "namespace-id"), InputField("Type", "type"),
     InputField("Id", "id")]

  /** The parameters given as JSON, in the order they are read. */
  const JsonInputs: seq<InputField> :=
    [InputField("DnsConfig", "dns-config"), InputField("HealthCheckConfig", "health-check-config"),
     InputField("HealthCheckCustomConfig", "health-check-custom-config"), InputField("Tags", "Tags")]

  /** The properties set from text inputs, `action` included. */
  const TextKeys: set<string> := {"Name", "Description", "NamespaceId", "Type", "action", "Id"}

  /** The properties set from JSON inputs. */
  const JsonKeys: set<string> := {"DnsConfig", "HealthCheckConfig", "HealthCheckCustomConfig", "Tags"}

  /** `Invalid JSON for ${param}: ${message}: ${s}` */
  function InvalidJsonMessage(param: string, message: string, s: string): string
  {
    "Invalid JSON for " + param + ": " + message + ": " + s
  }

  /** `handleGetParameterErrors(err, param, s)`: a syntax error becomes an error
      naming the parameter, the parser's message and the text supplied; any
      other error is kept as it is. */
  function HandleGetParameterErrors(err: Exception, param: string, s: string): (r: Exception)
    ensures err.SyntaxError? <==> r.PlainError? && !err.PlainError?
    ensures err.SyntaxError? ==> r.message == InvalidJsonMessage(param, err.message, s)
    ensures !err.SyntaxError? ==> r == err
  {
    if err.SyntaxError? then PlainError(InvalidJsonMessage(param, err.message, s)) else err
  }

  /** `core.getInput('action') || 'create'` */
  function ActionOf(s: string): (r: string)
    ensures r != ""
    ensures s != "" ==> r == s
    ensures s == "" ==> r == "create"
  {
    if s != "" then s else "create"
  }

  /** The properties set before the JSON inputs are read. */
  function TextParameters(inputs: map<string, string>): map<string, Val>
  {
    map["Name" := Str(Input(inputs, "name")),
        "Description" := Str(Input(inputs, "description")),
        "NamespaceId" := Str(Input(inputs, "namespace-id")),
        "Type" := Str(Input(inputs, "type")),
        "action" := Str(ActionOf(Input(inputs, "action"))),
        "Id" := Str(Input(inputs, "id"))]
  }

  /** A JSON input that was supplied and does not parse. */
  predicate Fails(inputs: map<string, string>, parse: string -> ParseResult, f: InputField)
  {
    Input(inputs, f.name) != "" && parse(Input(inputs, f.name)).Threw?
  }

  /** A JSON input that was supplied and parses. */
  predicate Supplied(inputs: map<string, string>, parse: string -> ParseResult, f: InputField)
  {
    Input(inputs, f.name) != "" && parse(Input(inputs, f.name)).Parsed?
  }

  /** What reading a failing JSON input throws. */
  function FailureOf(inputs: map<string, string>, parse: string -> ParseResult, f: InputField): Exception
    requires Fails(inputs, parse, f)
  {
    HandleGetParameterErrors(parse(Input(inputs, f.name)).error, f.key, Input(inputs, f.name))
  }

  /** What the first failing input among `fields` throws, if any fails. */
  function FirstFailure(inputs: map<string, string>, parse: string -> ParseResult,
                        fields: seq<InputField>): Option<Exception>
  {
    if fields == [] then None
    else
      match FirstFailure(inputs, parse, fields[..|fields| - 1])
      case Some(e) => Some(e)
      case None =>
        var last := fields[|fields| - 1];
        if Fails(inputs, parse, last) then Some(FailureOf(inputs, parse, last)) else None
  }

  /** The parsed values of the supplied JSON inputs among `fields`, by property. */
  function ParsedValues(inputs: map<string, string>, parse: string -> ParseResult,
                        fields: seq<InputField>): map<string, Val>
  {
    if fields == [] then map[]
    else
      var before := ParsedValues(inputs, parse, fields[..|fields| - 1]);
      var last := fields[|fields| - 1];
      if Supplied(inputs, parse, last) then before[last.key := parse(Input(inputs, last.name)).value]
      else before
  }

  /** `_.pickBy(parameters, (value) => value !== '')` */
  function WithoutEmptyText(parameters: map<string, Val>): (r: map<string, Val>)
    ensures forall k :: k in r <==> k in parameters && parameters[k] != Str("")
    ensures forall k | k in r :: r[k] == parameters[k]
  {
    map k | k in parameters && parameters[k] != Str("") :: parameters[k]
  }

  /** A property that only the first record sets survives the empty-text
      filter of the union exactly when it is not the empty string. */
  lemma KeptFromFirst(first: map<string, Val>, second: map<string, Val>, k: string)
    requires k in first && k !in second
    ensures var p := WithoutEmptyText(first + second);
      && (k in p <==> first[k] != Str(""))
      && (k in p ==> p[k] == first[k])
  {
  }

  /** The empty-text filter yields `expected` when the record agrees with it
      on its properties and holds only the empty string elsewhere. */
  lemma WithoutEmptyTextIs(parameters: map<string, Val>, expected: map<string, Val>)
    requires forall k | k in expected :: k in parameters && parameters[k] == expected[k] && expected[k] != Str("")
    requires forall k | k in parameters && k !in expected :: parameters[k] == Str("")
    ensures WithoutEmptyText(parameters) == expected
  {
  }

  /** `getParameters()`: the parameter record, or what reading it throws. */
  function ParametersOf(inputs: map<string, string>, parse: string -> ParseResult): Result<map<string, Val>>
  {
    match FirstFailure(inputs, parse, JsonInputs)
    case Some(e) => Throw(e)
    case None => Ok(WithoutEmptyText(TextParameters(inputs) + ParsedValues(inputs, parse, JsonInputs)))
  }

  /** Once an input among the first `n` fails, what the first failure throws
      is settled: later inputs are not read. */
  lemma {:induction false} EarlierFailureStands(inputs: map<string, string>, parse: string -> ParseResult,
                                                fields: seq<InputField>, n: nat)
    requires n <= |fields|
    requires FirstFailure(inputs, parse, fields[..n]).Some?
    ensures FirstFailure(inputs, parse, fields) == FirstFailure(inputs, parse, fields[..n])
    decreases |fields| - n
  {
    if n < |fields| {
      var front := fields[..|fields| - 1];
      assert front[..n] == fields[..n];
      EarlierFailureStands(inputs, parse, front, n);
    } else {
      assert fields[..n] == fields;
    }
  }

  /** `getParameters` as written: the text inputs, then each JSON input in
      turn, parsed and assigned when supplied, the first that fails ending
      the reading. */
  method GetParameters(inputs: map<string, string>, parse: string -> ParseResult)
      returns (r: Result<map<string, Val>>)
    ensures r == ParametersOf(inputs, parse)
  {
    var parameters := TextParameters(inputs);
    for i := 0 to |JsonInputs|
      invariant FirstFailure(inputs, parse, JsonInputs[..i]) == None
      invariant parameters == TextParameters(inputs) + ParsedValues(inputs, parse, JsonInputs[..i])
    {
      var field := JsonInputs[i];
      var s := Input(inputs, field.name);
      assert JsonInputs[..i + 1][..i] == JsonInputs[..i];
      if s != "" {
        match parse(s)
        case Threw(err) =>
          EarlierFailureStands(inputs, parse, JsonInputs, i + 1);
          return Throw(HandleGetParameterErrors(err, field.key, s));
        case Parsed(t) =>
          parameters := parameters[field.key := t];
      }
    }
    assert JsonInputs[..|JsonInputs|] == JsonInputs;
    return Ok(WithoutEmptyText(parameters));
  }

  /** The first failure is that of the earliest failing input, and there is
      none exactly when no input fails. */
  lemma {:induction false} FirstFailureIsEarliest(inputs: map<string, string>, parse: string -> ParseResult,
                                                  fields: seq<InputField>)
    ensures FirstFailure(inputs, parse, fields).None? <==>
      forall i | 0 <= i < |fields| :: !Fails(inputs, parse, fields[i])
    ensures FirstFailure(inputs, parse, fields).Some? ==>
      exists i | 0 <= i < |fields| ::
        && Fails(inputs, parse, fields[i])
        && (forall j | 0 <= j < i :: !Fails(inputs, parse, fields[j]))
        && FirstFailure(inputs, parse, fields).value == FailureOf(inputs, parse, fields[i])
    decreases |fields|
  {
    if fields != [] {
      var front := fields[..|fields| - 1];
      FirstFailureIsEarliest(inputs, parse, front);
      assert forall i | 0 <= i < |front| :: front[i] == fields[i];
    }
  }

  /** A property is set exactly when some input among `fields` that stores
      to it was supplied and parses. */
  lemma {:induction false} ParsedValuesAreSupplied(inputs: map<string, string>, parse: string -> ParseResult,
                                                   fields: seq<InputField>)
    ensures forall k :: k in ParsedValues(inputs, parse, fields) <==>
      exists i | 0 <= i < |fields| :: fields[i].key == k && Supplied(inputs, parse, fields[i])
    decreases |fields|
  {
    if fields != [] {
      var front := fields[..|fields| - 1];
      ParsedValuesAreSupplied(inputs, parse, front);
      assert forall i | 0 <= i < |front| :: front[i] == fields[i];
    }
  }

  /** Every supplied JSON input that parses is stored with its parsed value,
      the properties of `fields` being distinct. */
  lemma {:induction false} ParsedValuesHoldParsed(inputs: map<string, string>, parse: string -> ParseResult,
                                                  fields: seq<InputField>)
    requires forall i, j | 0 <= i < j < |fields| :: fields[i].key != fields[j].key
    ensures forall i | 0 <= i < |fields| && Supplied(inputs, parse, fields[i]) ::
      && fields[i].key in ParsedValues(inputs, parse, fields)
      && ParsedValues(inputs, parse, fields)[fields[i].key] == parse(Input(inputs, fields[i].name)).value
    decreases |fields|
  {
    if fields != [] {
      var front := fields[..|fields| - 1];
      ParsedValuesHoldParsed(inputs, parse, front);
      assert forall i | 0 <= i < |front| :: front[i] == fields[i];
    }
  }

  /** Reading the parameters fails exactly when a supplied JSON input does not
      parse, and then with what the earliest such input raises. */
  lemma ParametersFailOnFirstBadJson(inputs: map<string, string>, parse: string -> ParseResult)
    ensures ParametersOf(inputs, parse).Ok? <==> forall f | f in JsonInputs :: !Fails(inputs, parse, f)
    ensures ParametersOf(inputs, parse).Throw? ==>
      exists i | 0 <= i < |JsonInputs| ::
        && Fails(inputs, parse, JsonInputs[i])
        && (forall j | 0 <= j < i :: !Fails(inputs, parse, JsonInputs[j]))
        && ParametersOf(inputs, parse).exception == FailureOf(inputs, parse, JsonInputs[i])
  {
    FirstFailureIsEarliest(inputs, parse, JsonInputs);
  }

  /** The text parameters are the six text inputs as read, each under its
      own property. */
  lemma TextParametersReadTextInputs(inputs: map<string, string>)
    ensures TextParameters(inputs).Keys == TextKeys
    ensures TextParameters(inputs)["action"] == Str(ActionOf(Input(inputs, "action")))
    ensures forall i | 0 <= i < |TextInputs| ::
      TextParameters(inputs)[TextInputs[i].key] == Str(Input(inputs, TextInputs[i].name))
  {
  }

  /** No JSON input shares its property with a text input or with `action`. */
  lemma JsonKeysAreApart()
    ensures forall i | 0 <= i < |JsonInputs| :: JsonInputs[i].key in JsonKeys
    ensures TextKeys !! JsonKeys
    ensures forall i, j | 0 <= i < j < |JsonInputs| :: JsonInputs[i].key != JsonInputs[j].key
  {
  }

  /** The parsed values are only ever stored under the properties of `fields`. */
  lemma {:induction false} ParsedValuesStayWithin(inputs: map<string, string>, parse: string -> ParseResult,
                                                  fields: seq<InputField>, keys: set<string>)
    requires forall i | 0 <= i < |fields| :: fields[i].key in keys
    ensures ParsedValues(inputs, parse, fields).Keys <= keys
    decreases |fields|
  {
    if fields != [] {
      ParsedValuesStayWithin(inputs, parse, fields[..|fields| - 1], keys);
    }
  }

  /** The parameter record holds the action (`create` when not given) and
      each text input that is not empty, as read. */
  lemma ParametersHoldTextInputs(inputs: map<string, string>, parse: string -> ParseResult)
    requires ParametersOf(inputs, parse).Ok?
    ensures var p := ParametersOf(inputs, parse).value;
      && "action" in p && p["action"] == Str(ActionOf(Input(inputs, "action")))
      && (forall i | 0 <= i < |TextInputs| ::
            var f := TextInputs[i];
            && (f.key in p <==> Input(inputs, f.name) != "")
            && (f.key in p ==> p[f.key] == Str(Input(inputs, f.name))))
  {
    var text := TextParameters(inputs);
    var parsed := ParsedValues(inputs, parse, JsonInputs);
    TextParametersReadTextInputs(inputs);
    JsonKeysAreApart();
    ParsedValuesStayWithin(inputs, parse, JsonInputs, JsonKeys);
    KeptFromFirst(text, parsed, "action");
    forall i | 0 <= i < |TextInputs|
      ensures var p := ParametersOf(inputs, parse).value;
        var f := TextInputs[i];
        && (f.key in p <==> Input(inputs, f.name) != "")
        && (f.key in p ==> p[f.key] == Str(Input(inputs, f.name)))
    {
      var k := TextInputs[i].key;
      assert k in text.Keys;
      assert k !in parsed by {
        assert k in TextKeys;
      }
      KeptFromFirst(text, parsed, k);
    }
  }

  /** The parameter record holds each supplied JSON input that parses to
      anything but the empty string, with its parsed value. */
  lemma ParametersHoldJsonInputs(inputs: map<string, string>, parse: string -> ParseResult)
    requires ParametersOf(inputs, parse).Ok?
    ensures var p := ParametersOf(inputs, parse).value;
      forall i | 0 <= i < |JsonInputs| ::
        var f := JsonInputs[i];
        && (f.key in p <==> Supplied(inputs, parse, f) && parse(Input(inputs, f.name)).value != Str(""))
        && (f.key in p ==> p[f.key] == parse(Input(inputs, f.name)).value)
  {
    JsonKeysAreApart();
    ParsedValuesAreSupplied(inputs, parse, JsonInputs);
    ParsedValuesHoldParsed(inputs, parse, JsonInputs);
  }

  /** The parameter record has no other property, and none of its properties
      is the empty string. */
  lemma ParametersHoldNothingElse(inputs: map<string, string>, parse: string -> ParseResult)
    requires ParametersOf(inputs, parse).Ok?
    ensures var p := ParametersOf(inputs, parse).value;
      && (forall k | k in p ::
            k in TextKeys + JsonKeys)
      && (forall k | k in p :: p[k] != Str(""))
  {
    TextParametersReadTextInputs(inputs);
    JsonKeysAreApart();
    ParsedValuesStayWithin(inputs, parse, JsonInputs, JsonKeys);
  }

  /** The JSON inputs of the example below: only the health check
      configuration and the tags are supplied, and both parse. */
  lemma ExampleJsonInputs(inputs: map<string, string>, parse: string -> ParseResult,
                          healthCheck: Val, tags: Val)
    requires Input(inputs, "dns-config") == "" && Input(inputs, "health-check-custom-config") == ""
    requires Input(inputs, "health-check-config") != "" && Input(inputs, "Tags") != ""
    requires parse(Input(inputs, "health-check-config")) == Parsed(healthCheck)
    requires parse(Input(inputs, "Tags")) == Parsed(tags)
    ensures FirstFailure(inputs, parse, JsonInputs) == None
    ensures ParsedValues(inputs, parse, JsonInputs) == map["HealthCheckConfig" := healthCheck, "Tags" := tags]
  {
    assert FirstFailure(inputs, parse, JsonInputs[..1]) == None by {
      assert JsonInputs[..1][..0] == [];
    }
    assert FirstFailure(inputs, parse, JsonInputs[..2]) == None by {
      assert JsonInputs[..2][..1] == JsonInputs[..1];
    }
    assert FirstFailure(inputs, parse, JsonInputs[..3]) == None by {
      assert JsonInputs[..3][..2] == JsonInputs[..2];
    }
    assert JsonInputs[..3] == JsonInputs[..|JsonInputs| - 1];
    var healthOnly := map["HealthCheckConfig" := healthCheck];
    assert ParsedValues(inputs, parse, JsonInputs[..1]) == map[] by {
      assert JsonInputs[..1][..0] == [];
    }
    assert ParsedValues(inputs, parse, JsonInputs[..2]) == healthOnly by {
      assert JsonInputs[..2][..1] == JsonInputs[..1];
    }
    assert ParsedValues(inputs, parse, JsonInputs[..3]) == healthOnly by {
      assert JsonInputs[..3][..2] == JsonInputs[..2];
    }
  }

  /** A workflow that supplies a name, a description, a namespace and a type,
      leaves the action, the identifier, the DNS configuration and the custom
      health check configuration empty, and gives a health check configuration
      and tags that parse: the record holds those six properties and the
      default action, and no identifier. */
  lemma ParametersExample(inputs: map<string, string>, parse: string -> ParseResult,
                          healthCheck: Val, tags: Val)
    requires Input(inputs, "name") == "name" && Input(inputs, "description") == "Description"
    requires Input(inputs, "namespace-id") == "NamespaceId" && Input(inputs, "type") == "Type"
    requires Input(inputs, "action") == "" && Input(inputs, "id") == ""
    requires Input(inputs, "dns-config") == "" && Input(inputs, "health-check-custom-config") == ""
    requires Input(inputs, "health-check-config") != "" && Input(inputs, "Tags") != ""
    requires parse(Input(inputs, "health-check-config")) == Parsed(healthCheck)
    requires parse(Input(inputs, "Tags")) == Parsed(tags)
    requires healthCheck != Str("") && tags != Str("")
    ensures ParametersOf(inputs, parse)
         == Ok(map["Name" := Str("name"), "Description" := Str("Description"),
                   "NamespaceId" := Str("NamespaceId"), "Type" := Str("Type"),
                   "action" := Str("create"), "HealthCheckConfig" := healthCheck,
                   "Tags" := tags])
  {
    ExampleJsonInputs(inputs, parse, healthCheck, tags);
    var expected := map["Name" := Str("name"), "Description" := Str("Description"),
                        "NamespaceId" := Str("NamespaceId"), "Type" := Str("Type"),
                        "action" := Str("create"), "HealthCheckConfig" := healthCheck,
                        "Tags" := tags];
    var whole := TextParameters(inputs) + map["HealthCheckConfig" := healthCheck, "Tags" := tags];
    assert whole.Keys == expected.Keys + {"Id"} && whole["Id"] == Str("");
    assert forall k | k in expected :: k in whole && whole[k] == expected[k] && expected[k] != Str("");
    WithoutEmptyTextIs(whole, expected);
  }

  /** The DNS configuration is read first: when it is supplied and does not
      parse, reading the parameters fails with its error, whatever the other
      inputs hold. */
  lemma DnsConfigFailsFirst(inputs: map<string, string>, parse: string -> ParseResult)
    requires Fails(inputs, parse, JsonInputs[0])
    ensures ParametersOf(inputs, parse) == Throw(FailureOf(inputs, parse, JsonInputs[0]))
  {
    assert FirstFailure(inputs, parse, JsonInputs[..1]) == Some(FailureOf(inputs, parse, JsonInputs[0])) by {
      assert JsonInputs[..1][..0] == [];
    }
    EarlierFailureStands(inputs, parse, JsonInputs, 1);
  }

  /** A DNS configuration with a typo: the parser's complaint is reported
      together with the property and the text supplied. */
  lemma InvalidJsonExample(inputs: map<string, string>, parse: string -> ParseResult)
    requires Input(inputs, "dns-config") == "{"
    requires parse("{") == Threw(SyntaxError("Unexpected end of JSON input"))
    ensures ParametersOf(inputs, parse)
         == Throw(PlainError("Invalid JSON for DnsConfig: Unexpected end of JSON input: {"))
  {
    DnsConfigFailsFirst(inputs, parse);
    TypoMessage();
  }

  lemma TypoMessage()
    ensures InvalidJsonMessage("DnsConfig", "Unexpected end of JSON input", "{")
         == "Invalid JSON for DnsConfig: Unexpected end of JSON input: {"
  {
  }
}
