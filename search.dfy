/**
 * The paginated search for a service by name within a namespace
 * (`findService`, `describeService`).
 *
 * `describeService` asks again, after a page without a match that has a
 * continuation token, with the token it was itself given rather than the
 * page's. `Describe` and `DescribeService` model that as written: the same
 * request is repeated, so the walk need not end, and both carry fuel (the
 * number of pages they may still ask for). `DescribeFollowingTokens` is the
 * evidently intended walk, which follows each page's token; it is kept
 * apart and used only to state what the intended walk achieves.
 */
module Search {
  import opened JsValues
  import opened Conversion
  import opened Registry

  /** `service.Name === Name`, on a service that is neither undefined nor null */
  predicate Matches(service: Val, name: Val)
  {
    StrictEquals(Get(service, "Name"), name)
  }

  /** No service before position `i` is nullish or matches. */
  predicate NoneMatchBefore(services: seq<Val>, name: Val, i: int)
    requires 0 <= i <= |services|
  {
    forall j | 0 <= j < i :: !Nullish(services[j]) && !Matches(services[j], name)
  }

  /** `serviceList.find((service) => service.Name === Name)`: the first
      matching service in array order, undefined when none matches; reading
      `Name` off an undefined or null element before any match throws. */
  function FindService(services: seq<Val>, name: Val): Result<Val>
  {
    if services == [] then Ok(Undefined)
    else if Nullish(services[0]) then Throw(TypeError)
    else if Matches(services[0], name) then Ok(services[0])
    else FindService(services[1..], name)
  }

  /** The search within a page finds the first service in array order whose
      name matches, reports undefined exactly when none does, and throws a
      type error exactly when an undefined or null entry comes before any
      match. */
  lemma {:induction false} FindServiceIsFirstMatch(services: seq<Val>, name: Val)
    ensures var r := FindService(services, name);
      && (r.Throw? ==> r.exception == TypeError)
      && (r.Throw? <==>
            exists i | 0 <= i < |services| :: Nullish(services[i]) && NoneMatchBefore(services, name, i))
      && (r == Ok(Undefined) <==> NoneMatchBefore(services, name, |services|))
      && (r.Ok? && r.value != Undefined ==>
            exists i | 0 <= i < |services| ::
              services[i] == r.value && Matches(services[i], name) && NoneMatchBefore(services, name, i))
  {
    if services != [] && !Nullish(services[0]) && !Matches(services[0], name) {
      FindServiceIsFirstMatch(services[1..], name);
      NoneMatchBeforeTail(services, name);
      var r := FindService(services, name);
      assert r == FindService(services[1..], name);
      if r.Throw? {
        var i :| 0 <= i < |services| - 1 && Nullish(services[1..][i]) && NoneMatchBefore(services[1..], name, i);
        assert Nullish(services[i + 1]) && NoneMatchBefore(services, name, i + 1);
      }
      if r.Ok? && r.value != Undefined {
        var i :| 0 <= i < |services| - 1 && services[1..][i] == r.value && Matches(services[1..][i], name)
                 && NoneMatchBefore(services[1..], name, i);
        assert services[i + 1] == r.value && NoneMatchBefore(services, name, i + 1);
      }
    }
  }

  /** Past a first service that neither is nullish nor matches, the rest of
      the list decides whether none matches before a position. */
  lemma NoneMatchBeforeTail(services: seq<Val>, name: Val)
    requires services != [] && !Nullish(services[0]) && !Matches(services[0], name)
    ensures forall i | 1 <= i <= |services| ::
      NoneMatchBefore(services, name, i) <==> NoneMatchBefore(services[1..], name, i - 1)
  {
  }

  /** `Service with Name: ${parameters.Name} not found.` */
  function NotFoundMessage(name: Val): string
  {
    "Service with Name: " + TemplateString(name) + " not found."
  }

  /** A listing that came back as a page with a truthy `Services` property. */
  predicate ListedPage(reply: Reply)
  {
    reply.Resolved? && Truthy(reply.value) && Truthy(Get(reply.value, "Services"))
  }

  /** What one page decides: a result, or that another page must be asked for. */
  datatype Step = Finished(result: Result<Val>) | NextPage(token: Val)

  /** The decision `describeService` takes on one listing reply. */
  function InspectPage(reply: Reply, name: Val): Step
  {
    match reply
    case Rejected(reason) => Finished(Throw(Rejection(reason)))
    case Resolved(response) =>
      if !(Truthy(response) && Truthy(Get(response, "Services"))) then
        Finished(Throw(SearchFailed(response)))
      else
        var services := Get(response, "Services");
        if !services.Arr? then
          // a truthy `Services` that is not an array has no `find`
          Finished(Throw(TypeError))
        else
          match FindService(services.items, name)
          case Throw(e) => Finished(Throw(e))
          case Ok(found) =>
            if Truthy(found) then Finished(Ok(found))
            else if Truthy(Get(response, "NextToken")) then NextPage(Get(response, "NextToken"))
            else Finished(Throw(NotFoundException(NotFoundMessage(name))))
  }

  /** What a page's decision tells about the page, and when each decision is
      taken: a rejection is passed on unchanged; a reply without truthy
      services is a search failure, and services that are not an array a type
      error; a result is the first match in array order; another page is asked
      for exactly when nothing matched and the page names a next one; not found
      exactly when nothing matched and the page names none; an undefined or
      null entry before any match is a type error. */
  lemma InspectPageDecides(reply: Reply, name: Val)
    ensures var s := InspectPage(reply, name);
      && (reply.Rejected? ==> s == Finished(Throw(Rejection(reply.reason))))
      && (reply.Resolved? ==> (!ListedPage(reply) <==> s == Finished(Throw(SearchFailed(reply.value)))))
      && (s.Finished? && s.result.Ok? ==>
            && ListedPage(reply)
            && Get(reply.value, "Services").Arr?
            && FindService(Get(reply.value, "Services").items, name) == s.result
            && Truthy(s.result.value))
      && (s.NextPage? ==>
            && ListedPage(reply)
            && Get(reply.value, "Services").Arr?
            && FindService(Get(reply.value, "Services").items, name).Ok?
            && !Truthy(FindService(Get(reply.value, "Services").items, name).value)
            && s.token == Get(reply.value, "NextToken")
            && Truthy(s.token))
      && (s.Finished? && s.result.Throw? && s.result.exception.NotFoundException? ==>
            && s.result.exception.message == NotFoundMessage(name)
            && ListedPage(reply)
            && Get(reply.value, "Services").Arr?
            && FindService(Get(reply.value, "Services").items, name).Ok?
            && !Truthy(FindService(Get(reply.value, "Services").items, name).value)
            && !Truthy(Get(reply.value, "NextToken")))
      && s != Finished(Throw(Unfinished))
      && (ListedPage(reply) && !Get(reply.value, "Services").Arr? ==> s == Finished(Throw(TypeError)))
      && (ListedPage(reply) && Get(reply.value, "Services").Arr? ==>
            var found := FindService(Get(reply.value, "Services").items, name);
            var next := Get(reply.value, "NextToken");
            && (found.Throw? ==> s == Finished(Throw(TypeError)))
            && (found.Ok? && Truthy(found.value) ==> s == Finished(found))
            && (found.Ok? && !Truthy(found.value) && Truthy(next) ==> s == NextPage(next))
            && (found.Ok? && !Truthy(found.value) && !Truthy(next)
                ==> s == Finished(Throw(NotFoundException(NotFoundMessage(name))))))
  {
    if reply.Resolved? && Get(reply.value, "Services").Arr? {
      FindServiceIsFirstMatch(Get(reply.value, "Services").items, name);
    }
  }

  /** No page decision is the out-of-fuel ending, which the program never throws. */
  lemma NeverUnfinished(reply: Reply, name: Val)
    ensures InspectPage(reply, name) != Finished(Throw(Unfinished))
  {
    if reply.Resolved? && Get(reply.value, "Services").Arr? {
      FindServiceIsFirstMatch(Get(reply.value, "Services").items, name);
    }
  }

  /** The listing command for a namespace and a token. */
  function ListCall(namespaceId: Val, token: Val): Call
  {
    ListServices(ListServicesInput(namespaceId, token))
  }

  /** `describeService(client, parameters, NextToken)` as written: the
      result and the commands sent, given those sent before. Every page is
      asked for with the token the search started with. */
  function Describe(respond: (seq<Call>, Call) -> Reply, log: seq<Call>,
                    parameters: map<string, Val>, token: Val, fuel: nat): (r: (Result<Val>, seq<Call>))
    decreases fuel
  {
    if fuel == 0 then (Throw(Unfinished), log)
    else
      match NamespaceId(parameters)
      case Throw(e) => (Throw(e), log)
      case Ok(ns) =>
        var c := ListCall(ns, token);
        match InspectPage(respond(log, c), Field(parameters, "Name"))
        case Finished(result) => (result, log + [c])
        case NextPage(_) => Describe(respond, log + [c], parameters, token, fuel - 1)
  }

  /** As written, the search only lists, always with the same request (the
      namespace filter and the token it started with), at most once per unit
      of fuel; whatever it reports other than running out of fuel or a bad
      namespace is what the last page decided. */
  lemma {:induction false} DescribeRepeatsOneRequest(respond: (seq<Call>, Call) -> Reply, log: seq<Call>,
                                                     parameters: map<string, Val>, token: Val, fuel: nat)
    ensures var r := Describe(respond, log, parameters, token, fuel);
      && |log| <= |r.1| <= |log| + fuel && r.1[..|log|] == log
      && (|r.1| > |log| ==> NamespaceId(parameters).Ok?)
      && (|r.1| > |log| ==>
            forall i | |log| <= i < |r.1| :: r.1[i] == ListCall(NamespaceId(parameters).value, token))
      && (fuel > 0 && NamespaceId(parameters).Throw? ==> r == (NamespaceId(parameters), log))
      && (r.0 == Throw(Unfinished) ==> |r.1| == |log| + fuel)
      && (r.0 != Throw(Unfinished) && NamespaceId(parameters).Ok? ==>
            && |r.1| > |log|
            && Finished(r.0) == InspectPage(respond(r.1[..|r.1| - 1], r.1[|r.1| - 1]), Field(parameters, "Name")))
    decreases fuel
  {
    if fuel > 0 && NamespaceId(parameters).Ok? {
      var c := ListCall(NamespaceId(parameters).value, token);
      if InspectPage(respond(log, c), Field(parameters, "Name")).NextPage? {
        DescribeRepeatsOneRequest(respond, log + [c], parameters, token, fuel - 1);
        var r := Describe(respond, log + [c], parameters, token, fuel - 1);
        assert r.1[..|log|] == (r.1[..|log| + 1])[..|log|];
      } else {
        NeverUnfinished(respond(log, c), Field(parameters, "Name"));
        assert (log + [c])[..|log|] == log;
      }
    }
  }

  /** `describeService` as a loop over pages, with the client's log as state. */
  method DescribeService(client: Client, parameters: map<string, Val>, token: Val, fuel: nat)
      returns (r: Result<Val>)
    modifies client
    ensures (r, client.calls) == Describe(client.respond, old(client.calls), parameters, token, fuel)
  {
    var remaining: nat := fuel;
    while remaining > 0
      invariant remaining <= fuel
      invariant Describe(client.respond, old(client.calls), parameters, token, fuel)
             == Describe(client.respond, client.calls, parameters, token, remaining)
      decreases remaining
    {
      var namespaceId := NamespaceId(parameters);
      if namespaceId.Throw? {
        return namespaceId;
      }
      ghost var before := client.calls;
      var reply := client.Send(ListCall(namespaceId.value, token));
      var step := InspectPage(reply, Field(parameters, "Name"));
      if step.Finished? {
        assert Describe(client.respond, before, parameters, token, remaining) == (step.result, client.calls);
        return step.result;
      }
      assert Describe(client.respond, before, parameters, token, remaining)
          == Describe(client.respond, client.calls, parameters, token, remaining - 1);
      remaining := remaining - 1;
    }
    return Throw(Unfinished);
  }

  /** Whatever was sent before, the registry answers `c` with a page that
      does not list `name` but names a next page. */
  ghost predicate AlwaysPassesOn(respond: (seq<Call>, Call) -> Reply, c: Call, name: Val)
  {
    forall l: seq<Call> :: InspectPage(respond(l, c), name).NextPage?
  }

  /** `n` copies of one command. */
  function Repeat(c: Call, n: nat): (r: seq<Call>)
    ensures |r| == n && forall i | 0 <= i < n :: r[i] == c
  {
    seq(n, _ => c)
  }

  /** As written, when the registry always answers a listing with a page
      without a match but with a continuation token, the search asks for that
      same page again and again: it ends only when the fuel does, whatever the
      fuel. */
  lemma {:induction false} RepeatedPageNeverFinishes(respond: (seq<Call>, Call) -> Reply, log: seq<Call>,
                                                    parameters: map<string, Val>, token: Val, fuel: nat)
    requires NamespaceId(parameters).Ok?
    requires AlwaysPassesOn(respond, ListCall(NamespaceId(parameters).value, token), Field(parameters, "Name"))
    ensures Describe(respond, log, parameters, token, fuel)
         == (Throw(Unfinished), log + Repeat(ListCall(NamespaceId(parameters).value, token), fuel))
    decreases fuel
  {
    var c := ListCall(NamespaceId(parameters).value, token);
    if fuel > 0 {
      assert InspectPage(respond(log, c), Field(parameters, "Name")).NextPage?;
      RepeatedPageNeverFinishes(respond, log + [c], parameters, token, fuel - 1);
      assert log + [c] + Repeat(c, fuel - 1) == log + Repeat(c, fuel);
    } else {
      assert log + Repeat(c, 0) == log;
    }
  }

  /** The evidently intended walk: after a page without a match, ask for the
      page named by that page's continuation token. */
  function DescribeFollowingTokens(respond: (seq<Call>, Call) -> Reply, log: seq<Call>,
                                   parameters: map<string, Val>, token: Val, fuel: nat): (r: (Result<Val>, seq<Call>))
    decreases fuel
  {
    if fuel == 0 then (Throw(Unfinished), log)
    else
      match NamespaceId(parameters)
      case Throw(e) => (Throw(e), log)
      case Ok(ns) =>
        var c := ListCall(ns, token);
        match InspectPage(respond(log, c), Field(parameters, "Name"))
        case Finished(result) => (result, log + [c])
        case NextPage(next) => DescribeFollowingTokens(respond, log + [c], parameters, next, fuel - 1)
  }

  /** The walk as written and the intended walk differ only after a page that
      asks for another: whenever the first page decides, they agree. */
  lemma WalksAgreeWhenFirstPageDecides(respond: (seq<Call>, Call) -> Reply, log: seq<Call>,
                                       parameters: map<string, Val>, token: Val, fuel: nat)
    requires fuel > 0 && NamespaceId(parameters).Ok?
    requires InspectPage(respond(log, ListCall(NamespaceId(parameters).value, token)), Field(parameters, "Name")).Finished?
    ensures Describe(respond, log, parameters, token, fuel)
         == DescribeFollowingTokens(respond, log, parameters, token, fuel)
         == (InspectPage(respond(log, ListCall(NamespaceId(parameters).value, token)), Field(parameters, "Name")).result,
             log + [ListCall(NamespaceId(parameters).value, token)])
  {
  }

  /** A listing reply for a page: its `Services` are the page's services, and
      its `NextToken` is truthy exactly when the page names a next one, and
      then is that one. Its other properties, such as `$metadata`, are free. */
  predicate ListsPage(response: Val, services: seq<Val>, nextToken: Val)
  {
    && Get(response, "Services") == Arr(services)
    && Truthy(Get(response, "NextToken")) == Truthy(nextToken)
    && (Truthy(nextToken) ==> Get(response, "NextToken") == nextToken)
  }

  /** The token page `i` names as the next one (none on the last page). */
  function NextTokenOf(tokens: seq<Val>, i: nat): Val
  {
    if i + 1 < |tokens| then tokens[i + 1] else Undefined
  }

  /** The listing commands for a namespace and a run of tokens, in order. */
  function ListCalls(namespaceId: Val, tokens: seq<Val>): (r: seq<Call>)
    ensures |r| == |tokens|
    ensures forall i | 0 <= i < |tokens| :: r[i] == ListCall(namespaceId, tokens[i])
  {
    if tokens == [] then [] else [ListCall(namespaceId, tokens[0])] + ListCalls(namespaceId, tokens[1..])
  }

  lemma ListCallsSplit(namespaceId: Val, tokens: seq<Val>, j: nat, k: nat)
    requires j < k <= |tokens|
    ensures ListCalls(namespaceId, tokens[j..k]) == [ListCall(namespaceId, tokens[j])] + ListCalls(namespaceId, tokens[j + 1..k])
  {
    assert tokens[j..k] == [tokens[j]] + tokens[j + 1..k];
  }

  lemma ListCallsSingle(namespaceId: Val, tokens: seq<Val>, k: nat)
    requires k < |tokens|
    ensures ListCalls(namespaceId, tokens[k..k + 1]) == [ListCall(namespaceId, tokens[k])]
  {
    assert tokens[k..k + 1] == [tokens[k]];
  }

  lemma ListCallsFrom(namespaceId: Val, tokens: seq<Val>, j: nat)
    requires j < |tokens|
    ensures ListCalls(namespaceId, tokens[j..]) == [ListCall(namespaceId, tokens[j])] + ListCalls(namespaceId, tokens[j + 1..])
  {
    assert tokens[j..] == [tokens[j]] + tokens[j + 1..];
  }

  /** A registry that, whatever was sent before, answers the listing with
      token `tokens[i]` with page `i`, which names `tokens[i + 1]` as the next. */
  ghost predicate ServesPages(respond: (seq<Call>, Call) -> Reply, namespaceId: Val,
                              tokens: seq<Val>, pages: seq<seq<Val>>)
  {
    && |tokens| == |pages|
    && (forall i | 1 <= i < |tokens| :: Truthy(tokens[i]))
    && (forall i, l: seq<Call> | 0 <= i < |pages| ::
          && respond(l, ListCall(namespaceId, tokens[i])).Resolved?
          && ListsPage(respond(l, ListCall(namespaceId, tokens[i])).value, pages[i], NextTokenOf(tokens, i)))
  }

  /** No service on the page carries the name (and none is undefined or null). */
  predicate NotListed(services: seq<Val>, name: Val)
  {
    NoneMatchBefore(services, name, |services|)
  }

  /** The service at position `m` is the first on the page with the name. */
  predicate FirstListedAt(services: seq<Val>, name: Val, m: int)
  {
    && 0 <= m < |services| && !Nullish(services[m]) && Matches(services[m], name)
    && NoneMatchBefore(services, name, m)
  }

  /** The search within a page returns the service first listed with the name. */
  lemma {:induction false} FirstListedIsFound(services: seq<Val>, name: Val, m: nat)
    requires FirstListedAt(services, name, m)
    ensures FindService(services, name) == Ok(services[m])
    decreases m
  {
    if m > 0 {
      assert !Nullish(services[0]) && !Matches(services[0], name);
      assert forall i | 0 <= i < m - 1 :: services[1..][i] == services[i + 1];
      FirstListedIsFound(services[1..], name, m - 1);
    }
  }

  /** A page of the intended walk that does not list the name and names a next page. */
  lemma StepPastPage(respond: (seq<Call>, Call) -> Reply, log: seq<Call>,
                     parameters: map<string, Val>, tokens: seq<Val>,
                     pages: seq<seq<Val>>, j: nat, fuel: nat)
    requires NamespaceId(parameters).Ok?
    requires ServesPages(respond, NamespaceId(parameters).value, tokens, pages)
    requires j + 1 < |pages| && fuel > 0
    requires NotListed(pages[j], Field(parameters, "Name"))
    ensures DescribeFollowingTokens(respond, log, parameters, tokens[j], fuel)
         == DescribeFollowingTokens(respond, log + [ListCall(NamespaceId(parameters).value, tokens[j])],
                                    parameters, tokens[j + 1], fuel - 1)
  {
    var c := ListCall(NamespaceId(parameters).value, tokens[j]);
    assert respond(log, c).Resolved? && ListsPage(respond(log, c).value, pages[j], NextTokenOf(tokens, j));
    FindServiceIsFirstMatch(pages[j], Field(parameters, "Name"));
  }

  /** A page of the intended walk that lists the name. */
  lemma StepOntoMatch(respond: (seq<Call>, Call) -> Reply, log: seq<Call>,
                      parameters: map<string, Val>, tokens: seq<Val>,
                      pages: seq<seq<Val>>, j: nat, m: nat, fuel: nat)
    requires NamespaceId(parameters).Ok? && Field(parameters, "Name").Str?
    requires ServesPages(respond, NamespaceId(parameters).value, tokens, pages)
    requires j < |pages| && fuel > 0
    requires FirstListedAt(pages[j], Field(parameters, "Name"), m)
    ensures DescribeFollowingTokens(respond, log, parameters, tokens[j], fuel)
         == (Ok(pages[j][m]), log + ListCalls(NamespaceId(parameters).value, tokens[j..j + 1]))
  {
    var name := Field(parameters, "Name");
    var c := ListCall(NamespaceId(parameters).value, tokens[j]);
    ListCallsSingle(NamespaceId(parameters).value, tokens, j);
    assert respond(log, c).Resolved? && ListsPage(respond(log, c).value, pages[j], NextTokenOf(tokens, j));
    FirstListedIsFound(pages[j], name, m);
    assert Truthy(pages[j][m]);
  }

  /** The last page of the intended walk, which does not list the name. */
  lemma StepOffLastPage(respond: (seq<Call>, Call) -> Reply, log: seq<Call>,
                        parameters: map<string, Val>, tokens: seq<Val>,
                        pages: seq<seq<Val>>, fuel: nat)
    requires NamespaceId(parameters).Ok?
    requires ServesPages(respond, NamespaceId(parameters).value, tokens, pages)
    requires |pages| > 0 && fuel > 0
    requires NotListed(pages[|pages| - 1], Field(parameters, "Name"))
    ensures DescribeFollowingTokens(respond, log, parameters, tokens[|pages| - 1], fuel)
         == (Throw(NotFoundException(NotFoundMessage(Field(parameters, "Name")))),
             log + ListCalls(NamespaceId(parameters).value, tokens[|pages| - 1..]))
  {
    var j := |pages| - 1;
    var c := ListCall(NamespaceId(parameters).value, tokens[j]);
    var name := Field(parameters, "Name");
    ListCallsSingle(NamespaceId(parameters).value, tokens, j);
    assert tokens[j..] == tokens[j..j + 1];
    var reply := respond(log, c);
    assert reply.Resolved? && ListsPage(reply.value, pages[j], Undefined) by {
      assert NextTokenOf(tokens, j) == Undefined;
    }
    assert InspectPage(reply, name) == Finished(Throw(NotFoundException(NotFoundMessage(name)))) by {
      FindServiceIsFirstMatch(pages[j], name);
      InspectPageDecides(reply, name);
    }
  }

  /** One page of the intended walk in front of the rest: a walk that, from
      page `j + 1`, ends with `result` after the listings `rest` ends, from
      page `j`, with the same result after the listing of page `j` and `rest`. */
  lemma StepThenRest(respond: (seq<Call>, Call) -> Reply, log: seq<Call>,
                     parameters: map<string, Val>, tokens: seq<Val>,
                     pages: seq<seq<Val>>, j: nat, fuel: nat, result: Result<Val>, rest: seq<Call>)
    requires NamespaceId(parameters).Ok?
    requires ServesPages(respond, NamespaceId(parameters).value, tokens, pages)
    requires j + 1 < |pages| && fuel > 0
    requires NotListed(pages[j], Field(parameters, "Name"))
    requires DescribeFollowingTokens(respond, log + [ListCall(NamespaceId(parameters).value, tokens[j])],
                                     parameters, tokens[j + 1], fuel - 1)
          == (result, log + [ListCall(NamespaceId(parameters).value, tokens[j])] + rest)
    ensures DescribeFollowingTokens(respond, log, parameters, tokens[j], fuel)
         == (result, log + ([ListCall(NamespaceId(parameters).value, tokens[j])] + rest))
  {
    var c := ListCall(NamespaceId(parameters).value, tokens[j]);
    StepPastPage(respond, log, parameters, tokens, pages, j, fuel);
    assert log + [c] + rest == log + ([c] + rest);
  }

  /** The intended walk, started at page `j`, finds a service first listed on
      page `k` (at position `m`) with exactly the listings of pages `j` to `k`,
      whatever the number of pages after `k`. */
  lemma {:induction false} FollowingTokensFindsOnPage(respond: (seq<Call>, Call) -> Reply, log: seq<Call>,
                                                      parameters: map<string, Val>, tokens: seq<Val>,
                                                      pages: seq<seq<Val>>, j: nat, k: nat, m: nat, fuel: nat)
    requires NamespaceId(parameters).Ok? && Field(parameters, "Name").Str?
    requires ServesPages(respond, NamespaceId(parameters).value, tokens, pages)
    requires j <= k < |pages|
    requires forall i | j <= i < k :: NotListed(pages[i], Field(parameters, "Name"))
    requires FirstListedAt(pages[k], Field(parameters, "Name"), m)
    requires fuel > k - j
    ensures DescribeFollowingTokens(respond, log, parameters, tokens[j], fuel)
         == (Ok(pages[k][m]), log + ListCalls(NamespaceId(parameters).value, tokens[j..k + 1]))
    decreases k - j
  {
    var ns := NamespaceId(parameters).value;
    var c := ListCall(ns, tokens[j]);
    if j < k {
      var rest := ListCalls(ns, tokens[j + 1..k + 1]);
      FollowingTokensFindsOnPage(respond, log + [c], parameters, tokens, pages, j + 1, k, m, fuel - 1);
      StepThenRest(respond, log, parameters, tokens, pages, j, fuel, Ok(pages[k][m]), rest);
      ListCallsSplit(ns, tokens, j, k + 1);
    } else {
      StepOntoMatch(respond, log, parameters, tokens, pages, j, m, fuel);
    }
  }

  /** The intended walk, started at page `j`, reports a service listed on none
      of the remaining pages as not found, after listing each of them once. */
  lemma {:induction false} FollowingTokensNotFound(respond: (seq<Call>, Call) -> Reply, log: seq<Call>,
                                                   parameters: map<string, Val>, tokens: seq<Val>,
                                                   pages: seq<seq<Val>>, j: nat, fuel: nat)
    requires NamespaceId(parameters).Ok?
    requires ServesPages(respond, NamespaceId(parameters).value, tokens, pages)
    requires j < |pages|
    requires forall i | j <= i < |pages| :: NotListed(pages[i], Field(parameters, "Name"))
    requires fuel >= |pages| - j
    ensures DescribeFollowingTokens(respond, log, parameters, tokens[j], fuel)
         == (Throw(NotFoundException(NotFoundMessage(Field(parameters, "Name")))),
             log + ListCalls(NamespaceId(parameters).value, tokens[j..]))
    decreases |pages| - j
  {
    var ns := NamespaceId(parameters).value;
    var c := ListCall(ns, tokens[j]);
    var notFound := Throw(NotFoundException(NotFoundMessage(Field(parameters, "Name"))));
    if j + 1 < |pages| {
      var rest := ListCalls(ns, tokens[j + 1..]);
      FollowingTokensNotFound(respond, log + [c], parameters, tokens, pages, j + 1, fuel - 1);
      StepThenRest(respond, log, parameters, tokens, pages, j, fuel, notFound, rest);
      ListCallsFrom(ns, tokens, j);
    } else {
      StepOffLastPage(respond, log, parameters, tokens, pages, fuel);
    }
  }

  /** As written, the same registry never gets past its first page when the
      service is not on it: the search runs until its fuel is spent, for every
      fuel, even where the intended walk finds the service on a later page. */
  lemma AsWrittenNeverLeavesFirstPage(respond: (seq<Call>, Call) -> Reply, log: seq<Call>,
                                      parameters: map<string, Val>, tokens: seq<Val>,
                                      pages: seq<seq<Val>>, fuel: nat)
    requires NamespaceId(parameters).Ok?
    requires ServesPages(respond, NamespaceId(parameters).value, tokens, pages)
    requires |pages| >= 2
    requires NotListed(pages[0], Field(parameters, "Name"))
    ensures Describe(respond, log, parameters, tokens[0], fuel)
         == (Throw(Unfinished), log + Repeat(ListCall(NamespaceId(parameters).value, tokens[0]), fuel))
  {
    var c := ListCall(NamespaceId(parameters).value, tokens[0]);
    var name := Field(parameters, "Name");
    FindServiceIsFirstMatch(pages[0], name);
    assert AlwaysPassesOn(respond, c, name) by {
      forall l: seq<Call> ensures InspectPage(respond(l, c), name).NextPage? {
        assert respond(l, c).Resolved? && ListsPage(respond(l, c).value, pages[0], NextTokenOf(tokens, 0));
      }
    }
    RepeatedPageNeverFinishes(respond, log, parameters, tokens[0], fuel);
  }
}
