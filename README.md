# Cloud Map service action, modelled in Dafny

This project models the core of a GitHub Action that reconciles one AWS
Cloud Map (service discovery) service. The action does four things:

- It reads its parameters from the workflow inputs. Six are text, and four
  are JSON that is parsed only when supplied.
- It works out the namespace.
- It either deletes the service by identifier or finds it by name. The
  search walks the namespace's listing pages. When the service is not
  there, the action creates it.
- It posts the record, its ARN and its `srv-` identifier as outputs.

Modules, in dependency order:

- `JsValues` (`js_values.dfy`): the JavaScript values the action handles,
  truthiness, property reads, strict equality and the exceptions it throws.
- `Conversion` (`conversion.dfy`): the projections of the parameter record
  onto each call's input, and the choice of namespace.
- `Registry` (`registry.dfy`): the listing request, and the client class.
  The client logs every command it sends. The registry is an oracle that
  answers each command given everything sent before.
- `Search` (`search.dfy`): the first-match scan, the page decision, and the
  paginated search. The search comes both as written and as evidently
  intended. A listing reply is described by its `Services` and its
  `NextToken` alone; its other properties, such as `$metadata`, are free.
- `Reconcile` (`reconcile.dfy`): find-or-create.
- `Inputs` (`inputs.dfy`): reading the parameters. The input source is a map
  from input name to text. The JSON parser is a parameter.
- `Identity` (`identity.dfy`): choosing the ARN, matching the ARN pattern,
  and the output log.
- `Action` (`action.dfy`): one run. It dispatches on `action` and checks the
  delete status.

The search as written re-sends the same request after a page without a
match (see Findings), so it need not end. `Describe` and its method
`DescribeService` therefore take fuel, the number of pages they may still
ask for. A search that spends its fuel ends with `Unfinished`, which the
program itself never throws. The reconciler and the run use the search as
written.

## Model

| member | source | states |
|---|---|---|
| JsValues.Truthy | index.js:86 | defines `!!v`: undefined, null, false, zero and the empty string are falsy, every other value truthy |
| JsValues.FalsyValues | index.js:86 | a value is falsy iff it is undefined, null, false, zero or the empty string |
| JsValues.StrictEquals | index.js:134 | defines `===`: equal primitives are strictly equal; two distinct arrays or objects never are |
| JsValues.StrictEqualsOnPrimitives | index.js:134 | strict equality is symmetric, implies equality, and on primitives is equality |
| JsValues.ErrorName | index.js:217 | `err.name` of every error the program throws is text; it is "NotFoundException" iff the error is the not-found exception or a rejection whose reason names itself so |
| JsValues.Get | index.js:84-85 | a property read yields the stored value when the object has that property, and undefined otherwise |
| Conversion.OmitUndefined | index.js:42-46 | exactly the properties whose value is not undefined are kept, with their values |
| Conversion.CreateServiceInputs | index.js:53-66 | the create input holds exactly the eight accepted properties that are present and not undefined, with their values; `action` and `Id` never appear |
| Conversion.DeleteServiceInputs | index.js:73-75 | the delete input has exactly the key `Id`, holding the parameters' `Id` even when undefined |
| Conversion.DnsNamespaceId | index.js:85 | the DNS-config namespace is the `NamespaceId` of the `DnsConfig` object when there is one, and undefined when `DnsConfig` is absent or falsy |
| Conversion.NamespaceId | index.js:83-97 | succeeds iff exactly one of the top-level and DNS-config namespace is truthy, and returns that one; both truthy throws the "(not both)" message; neither throws the "must be defined" message |
| Conversion.NamespaceIdIsTruthy | index.js:86-90 | a namespace that is returned is never empty or absent |
| Conversion.NamespaceIdExamples | index.test.js:139-158 | the four test-suite cases: top level, DNS config, both, neither |
| Registry.ListServicesInput | index.js:115-121 | a listing always carries the single namespace filter `EQ`/`NAMESPACE_ID`/`[ns]`; it has `NextToken` iff the token is truthy, and then with that token; nothing else |
| Registry.Client.Send | index.js:123 | sending appends the command to the log and returns the registry's answer to it, given the earlier commands |
| Search.FindService | index.js:133-135 | defines `serviceList.find(…)` over the page; its properties are stated by `Search.FindServiceIsFirstMatch` |
| Search.FindServiceIsFirstMatch | index.js:133-135 | the scan returns the first service in array order whose `Name` strictly equals the name; undefined iff none matches; a type error iff an undefined or null entry comes before any match |
| Search.FirstListedIsFound | index.js:133-135 | a service that is the first match on the page is the one returned |
| Search.InspectPage | index.js:152-163 | defines the decision on one reply; its properties are stated by `Search.InspectPageDecides` |
| Search.InspectPageDecides | index.js:152-163 | a rejection passes on unchanged; a reply without a truthy `Services` is a search failure carrying the response; a truthy `Services` that is not an array is a type error; otherwise the page's first match, when truthy, is returned exactly then; another page is asked for exactly when nothing matched and the page has a truthy `NextToken`; not found exactly when nothing matched and there is none; an undefined or null entry before any match is a type error |
| Search.NeverUnfinished | index.js:152-163 | no decision on a page is the out-of-fuel ending |
| Search.Describe | index.js:144-164 | defines the search as written, with fuel; its properties are stated by `Search.DescribeRepeatsOneRequest` and `Search.RepeatedPageNeverFinishes` |
| Search.DescribeFollowingTokens | index.js:144-160 | defines the corrected search, which lists the page named by each reply's `NextToken`; its properties are stated by `Search.FollowingTokensFindsOnPage` and `Search.FollowingTokensNotFound` |
| Search.DescribeRepeatsOneRequest | index.js:144-160 | the search as written only lists, and always with the same request (namespace filter and starting token); at most one listing per unit of fuel; a bad namespace sends nothing; any other ending is what the last page decided |
| Search.DescribeService | index.js:144-164 | the method's result and the client's new log are those of the search as written |
| Search.WalksAgreeWhenFirstPageDecides | index.js:152-159 | the search as written and the intended walk give the same result and listing whenever the first page decides |
| Search.RepeatedPageNeverFinishes | index.js:156-157 | when every reply to the listing, whatever was sent before, is a page without a match but with a next token, the search asks for the same page until its fuel runs out, for every fuel |
| Search.AsWrittenNeverLeavesFirstPage | index.js:156-157 | over any paged registry whose first page lacks the name, the search as written never leaves the first page |
| Search.StepThenRest | index.js:156-157 | a page without a match puts its own listing in front of the rest of the intended walk, which ends the same way |
| Search.StepPastPage | index.js:152-157 | one page of the intended walk without a match, with a next page, leads to that next page's listing |
| Search.StepOntoMatch | index.js:152-155 | one page of the intended walk that lists the name returns its first match after one listing |
| Search.StepOffLastPage | index.js:158-159 | the last page, without a match, ends the intended walk with "Service with Name: … not found." |
| Search.FollowingTokensFindsOnPage | index.js:144-160 | the intended walk finds a service first listed on page k, after listing exactly pages j to k in order |
| Search.FollowingTokensNotFound | index.js:144-160 | the intended walk reports a name listed on no page as not found, after listing each page once in order |
| Reconcile.CreateDescribe | index.js:211-224 | defines find-or-create; its properties are stated by `Reconcile.CreatesOnlyAfterNotFound` |
| Reconcile.CreateDescribeService | index.js:211-224 | the method's result and the client's new log are those of the find-or-create function |
| Reconcile.CreatesOnlyAfterNotFound | index.js:211-224 | earlier commands are kept; only listings and at most one create are sent, the create last; a create is sent iff the search threw an error named `NotFoundException`, and with the projected create inputs; after the create, the create's settlement (its response or its rejection) is returned; a found record is returned unchanged; a rejection with an undefined or null reason is a type error with no create; any other error is rethrown with no create |
| Reconcile.NoCreateWhenListed | index.js:213-215 | idempotence: when the first reply lists the service (whatever other properties, such as `$metadata`, the reply has), it is returned after one listing and nothing is created |
| Reconcile.CreatesWhenAbsent | index.js:217-219 | when the only reply (whatever its other properties) lacks the service and names no next page, one listing and then one create with the projected inputs are sent, and the create's result is returned |
| Inputs.HandleGetParameterErrors | index.js:240-246 | a syntax error becomes a plain error whose message is the labelled "Invalid JSON for …" text; any other error is returned unchanged |
| Inputs.ActionOf | index.js:258 | the action is never empty: it is the supplied text when that is not empty, and `create` when it is empty |
| Inputs.WithoutEmptyText | index.js:280-285 | exactly the properties whose value is not the empty string are kept, with their values |
| Inputs.TextParameters | index.js:253-260 | defines the six text properties; their properties are stated by `Inputs.TextParametersReadTextInputs` |
| Inputs.ParametersOf | index.js:252-286 | defines the reading of the parameters; its properties are stated by the `Inputs.ParametersHold…` lemmas and `Inputs.ParametersFailOnFirstBadJson` |
| Inputs.GetParameters | index.js:252-286 | the loop over the four JSON inputs computes the parameter record, or the first failure |
| Inputs.EarlierFailureStands | index.js:271-275 | once an input fails, the inputs after it do not change what is thrown |
| Inputs.FirstFailureIsEarliest | index.js:262-278 | reading fails iff some supplied JSON input does not parse, and then with the error of the earliest one |
| Inputs.ParametersFailOnFirstBadJson | index.js:262-278 | reading the parameters fails iff a supplied JSON input does not parse, and then with the wrapped error of the earliest such input |
| Inputs.ParsedValuesAreSupplied | index.js:267-277 | a JSON property is set iff its input was supplied and parses |
| Inputs.ParsedValuesHoldParsed | index.js:272-276 | each supplied JSON input that parses is stored under its own property with its parsed value |
| Inputs.ParsedValuesStayWithin | index.js:262-278 | parsed values are stored only under the properties of the JSON inputs |
| Inputs.TextParametersReadTextInputs | index.js:253-260 | the text part of the record has exactly the six text properties, each read from its own input |
| Inputs.JsonKeysAreApart | index.js:253-266 | no JSON property is a text property, and the JSON properties are distinct |
| Inputs.ParametersHoldTextInputs | index.js:253-260 | the record holds `action` (default `create`), and each text input iff it is not empty, with its text |
| Inputs.ParametersHoldJsonInputs | index.js:262-285 | the record holds each JSON input iff it was supplied and parses to something other than the empty string, with its parsed value |
| Inputs.ParametersHoldNothingElse | index.js:253-285 | the record has no other property, and no property holds the empty string |
| Inputs.ParametersExample | index.test.js:341-369 | the test-suite reading: name, description, namespace, type, default action, health check configuration and tags |
| Inputs.DnsConfigFailsFirst | index.js:262-275 | a DNS configuration that does not parse fails the reading, whatever the other inputs hold |
| Inputs.InvalidJsonExample | index.test.js:401-416 | the test suite's DNS configuration typo gives "Invalid JSON for DnsConfig: Unexpected end of JSON input: {" |
| Identity.MatchServiceArn | index.js:301 | defines the match of the ARN pattern; its properties are stated by `Identity.MatchesExactlyArnShaped` and `Identity.MatchesWithoutId` (when it matches, and when without the group), and by `Identity.MatchesServiceArn`, `Identity.CaptureIsServiceId` and `Identity.CapturedId` (what the group captures) |
| Identity.MatchesServiceArn | index.js:301 | any service ARN (word-or-dash region, digit account, `srv-` and identifier characters) followed by a non-identifier character matches, and its capture is `srv-` plus the identifier |
| Identity.CaptureIsServiceId | index.js:301 | whatever is captured is `srv-` plus identifier characters, found right after `service/` in a text shaped as a service ARN, with no identifier character after it |
| Identity.CapturedId | index.js:301 | the capture group takes the longest run of identifier characters after `srv-` |
| Identity.MatchOfShape | index.js:301 | on a text that starts as a service ARN, the pattern matches and its group is what the optional `srv-` identifier takes of the text after `service/` |
| Identity.MatchesExactlyArnShaped | index.js:301 | the pattern matches iff the text starts with the prefix, a word-or-dash region, `:`, a digit account, `:` and `service/`; on any other text the match is null |
| Identity.MatchesWithoutId | index.js:301 | a text that starts as a service ARN, but whose `service/` is not followed by `srv-` and an identifier character, matches without the group |
| Identity.ServiceIdExample | index.test.js:427-437 | the test suite's ARN yields `srv-abc12345` |
| Identity.ArnOf | index.js:293-300 | an ARN that is chosen is always truthy |
| Identity.ArnOfPrefersRecord | index.js:293-300 | the record's own ARN wins; the `Service` record's is used only when the record has none; with neither, "Unable to determine ARN" is thrown |
| Identity.ServiceIdOf | index.js:301 | the identifier is the pattern's capture, undefined when the group did not take part; a non-text ARN or a failed match throws a type error |
| Identity.Outputs.SetOutput | index.js:303-305 | setting an output appends it to the output log |
| Identity.PostToGithub | index.js:292-306 | on success the three outputs are appended in order; when the ARN or identifier cannot be read, nothing is posted |
| Identity.PostedOutputs | index.js:292-306 | defines the outputs posted for a response; its properties are stated by `Identity.PostedOutputsReportService` |
| Identity.PostedOutputsReportService | index.js:292-306 | all three outputs are posted or none is: response, then the chosen ARN as text, then its identifier; without an ARN the error is "Unable to determine ARN" |
| Identity.PostedOutputsOfServiceArn | index.test.js:422-438 | both response shapes post the record, the ARN and `srv-` plus the identifier: a found record, and a create result with any other properties beside `Service` |
| Action.DeleteStatus | index.js:340-344 | defines the status check after a delete; its properties are stated by `Action.DeleteSucceedsExactlyOn200` |
| Action.DeleteSucceedsExactlyOn200 | index.js:340-344 | a deletion succeeds iff the response's metadata reports status 200, returning the response; otherwise it fails with a deletion failure carrying the response when the response and its metadata are present, and with a type error when either is undefined or null |
| Action.DeleteStatusExamples | index.test.js:117-130 | the test suite's two delete responses (used by its tests at index.test.js:280-293): status 200 succeeds and status 500 fails |
| Action.RunOutcome | index.js:334-350 | defines one run; its properties are stated by `Action.DeleteRunDeletesOnce`, `Action.OtherRunNeverDeletes` and `Action.BadParametersRunNothing` |
| Action.Run | index.js:334-350 | the method's result, the client's log and the output log are those of one run |
| Action.DeleteRunDeletesOnce | index.js:336-344 | the action `delete` sends exactly one command, the delete of `{Id}`; it posts the response whatever its status; the result is the response when the status is 200 and a deletion failure carrying the response otherwise |
| Action.FindOrCreateRun | index.js:345-348 | any other action is find-or-create: an error from it is the run's error with nothing posted; a found or created service is returned with its three outputs posted; when the outputs cannot be read, their error is the run's error with nothing posted |
| Action.OtherRunNeverDeletes | index.js:345-348 | any other action never deletes and creates at most once, as its last command; the run's result is find-or-create's error, or its service with the three outputs posted, or the outputs' error with nothing posted |
| Action.BadParametersRunNothing | index.js:334 | a run whose parameters cannot be read sends nothing and posts nothing |

## Left out

- The AWS SDK client: its construction, the debug middleware and the network. The registry is an oracle from the commands sent so far and the new command to a resolved or rejected reply.
- `core.getInput`: the inputs are a map from input name to text. The platform's trimming and its handling of input-name case are not modelled.
- `core.setOutput`: outputs are an ordered log of (name, value) pairs.
- `core.info` and `core.debug`: logging only, with no effect on results.
- The JSON grammar. `JSON.parse` is a parameter that returns a value or throws.
- `JSON.stringify`. The search-failure and deletion-failure errors carry the response itself instead of its JSON text.
- `async`/`await`. The code has one call in flight at a time, so the calls are sequential.
- The entrypoint's `catch`, `core.setFailed` and `process.exit` (index.js:353-362). They are process plumbing.
- The stack trace that `NotFoundException` captures. It has no effect on behaviour.
- JavaScript numbers are integers here. Floating point does not matter to the action, which only compares a status code with 200.
- Strict equality on arrays and objects is modelled as never true. The values the action compares come from different sources, so they are never the same reference.
- Search.Describe: ends with `Unfinished` when its fuel runs out, because the search as written need not end. The program itself would keep listing.
- Search.DescribeService: the same fuel bound applies. Recursion is modelled as a loop over the same token.
- Action.Run: with the search as written, a run may end with `Unfinished` when the fuel runs out.
- The index.js:336 loose comparison `action == 'delete'` is modelled as strict equality. `action` is always text here, so the two agree.
- The tags are read from the input named `Tags` (index.js:266).

## Findings

| source | as written | input that shows it | evidently intended | confidence | as-written member | corrected member |
|---|---|---|---|---|---|---|
| index.js:157 | after a page with no match and a `NextToken`, the search recurses with the token it was itself given, so it asks for the same page again | a two-page namespace: page 1 lists no service with the name and has `NextToken` "token456"; page 2 lists it. The search asks for page 1 forever, and never sees page 2 | recurse with `response.NextToken`, walking the pages in order until a match or the last page | not executed | Search.AsWrittenNeverLeavesFirstPage | Search.FollowingTokensFindsOnPage |

The corrected walk is `Search.DescribeFollowingTokens`. It is proved to find a
service first listed on any page after listing exactly the pages up to that
one (`Search.FollowingTokensFindsOnPage`). It is also proved to report a name
listed on no page as not found (`Search.FollowingTokensNotFound`). The
reconciler and the run keep the search as written, so that they model what
the action does. The two walks agree whenever the first page decides
(`Search.WalksAgreeWhenFirstPageDecides`), so the reconciler's properties
that rest on the first page hold for the corrected walk as well.
