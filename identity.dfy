/**
 * Reporting the service (`postToGithub`): its ARN, taken from the record
 * itself or from the `Service` record a create call returns; its identifier,
 * the `srv-` part of that ARN; and the three outputs posted in order.
 */
module Identity {
  import opened JsValues

  /** `\w`: a letter, a digit or an underscore. */
  predicate IsWordChar(c: char)
  {
    'a' <= c <= 'z' || 'A' <= c <= 'Z' || '0' <= c <= '9' || c == '_'
  }

  /** `[\w-]` */
  predicate IsWordOrDash(c: char)
  {
    IsWordChar(c) || c == '-'
  }

  /** `[0-9]` */
  predicate IsDigit(c: char)
  {
    '0' <= c <= '9'
  }

  /** The length of the longest prefix of `t` whose characters all satisfy
      `allowed`: the greedy `*` of the pattern. */
  function RunLength(t: string, allowed: char -> bool): (n: nat)
    ensures n <= |t|
  {
    if t != [] && allowed(t[0]) then 1 + RunLength(t[1..], allowed) else 0
  }

  /** The run is made of allowed characters and stops at one that is not. */
  lemma {:induction false} RunLengthSpan(t: string, allowed: char -> bool)
    ensures var n := RunLength(t, allowed);
      && (forall k | 0 <= k < n :: allowed(t[k]))
      && (n < |t| ==> !allowed(t[n]))
  {
    if t != [] && allowed(t[0]) {
      RunLengthSpan(t[1..], allowed);
    }
  }

  const ArnPrefix: string := "arn:aws:servicediscovery:"

  const ServiceMarker: string := "service/"

  const IdPrefix: string := "srv-"

  /** `arn.match(/^arn:aws:servicediscovery:[\w-]*:[0-9]*:service\/(srv-[\w]+)?/)`:
      `None` when the text does not match (the match is null); otherwise the
      capture group, which is undefined (`Some(None)`) when no `srv-`
      identifier follows `service/`. The pattern is anchored at the start
      only, so anything may follow what it matches. */
  function MatchServiceArn(s: string): Option<Option<string>>
  {
    if |ArnPrefix| <= |s| && s[..|ArnPrefix|] == ArnPrefix then MatchRegion(s[|ArnPrefix|..]) else None
  }

  /** `[\w-]*:` and what follows */
  function MatchRegion(t: string): Option<Option<string>>
  {
    var n := RunLength(t, IsWordOrDash);
    if n < |t| && t[n] == ':' then MatchAccount(t[n + 1..]) else None
  }

  /** `[0-9]*:` and what follows */
  function MatchAccount(t: string): Option<Option<string>>
  {
    var n := RunLength(t, IsDigit);
    if n < |t| && t[n] == ':' then MatchMarker(t[n + 1..]) else None
  }

  /** `service\/` and what follows */
  function MatchMarker(t: string): Option<Option<string>>
  {
    if |ServiceMarker| <= |t| && t[..|ServiceMarker|] == ServiceMarker then Some(MatchId(t[|ServiceMarker|..]))
    else None
  }

  /** The optional group `(srv-[\w]+)?`, taken whenever it can be. */
  function MatchId(t: string): Option<string>
  {
    var p := |IdPrefix|;
    if p < |t| && t[..p] == IdPrefix && IsWordChar(t[p]) then Some(t[..p + RunLength(t[p..], IsWordChar)])
    else None
  }

  predicate AllWordOrDash(s: string)
  {
    forall i | 0 <= i < |s| :: IsWordOrDash(s[i])
  }

  predicate AllDigits(s: string)
  {
    forall i | 0 <= i < |s| :: IsDigit(s[i])
  }

  predicate AllWordChars(s: string)
  {
    forall i | 0 <= i < |s| :: IsWordChar(s[i])
  }

  /** A service ARN: region, account and service identifier in their places. */
  function ServiceArn(region: string, account: string, id: string): string
  {
    ArnPrefix + region + ":" + account + ":" + ServiceMarker + IdPrefix + id
  }

  /** A run of allowed characters ends where the first character that is not
      allowed stands. */
  lemma {:induction false} RunLengthOf(a: string, b: string, allowed: char -> bool)
    requires forall k | 0 <= k < |a| :: allowed(a[k])
    requires b != [] ==> !allowed(b[0])
    ensures RunLength(a + b, allowed) == |a|
  {
    if a != [] {
      assert (a + b)[1..] == a[1..] + b;
      RunLengthOf(a[1..], b, allowed);
    }
  }

  lemma SplitAfter(a: string, b: string)
    ensures (a + b)[..|a|] == a && (a + b)[|a|..] == b
  {
  }

  lemma MatchIdOf(id: string, rest: string)
    requires AllWordChars(id) && id != ""
    requires rest != [] ==> !IsWordChar(rest[0])
    ensures MatchId(IdPrefix + id + rest) == Some(IdPrefix + id)
  {
    var t := IdPrefix + id + rest;
    assert t[..|IdPrefix|] == IdPrefix && t[|IdPrefix|] == id[0];
    assert t[|IdPrefix|..] == id + rest;
    RunLengthOf(id, rest, IsWordChar);
    assert t[..|IdPrefix| + |id|] == IdPrefix + id;
  }

  lemma MatchRegionOf(region: string, t: string)
    requires AllWordOrDash(region)
    ensures MatchRegion(region + ":" + t) == MatchAccount(t)
  {
    assert region + ":" + t == region + (":" + t);
    RunLengthOf(region, ":" + t, IsWordOrDash);
    assert (region + ":" + t)[|region|] == ':';
    assert (region + ":" + t)[|region| + 1..] == t;
  }

  lemma MatchAccountOf(account: string, t: string)
    requires AllDigits(account)
    ensures MatchAccount(account + ":" + t) == MatchMarker(t)
  {
    assert account + ":" + t == account + (":" + t);
    RunLengthOf(account, ":" + t, IsDigit);
    assert (account + ":" + t)[|account|] == ':';
    assert (account + ":" + t)[|account| + 1..] == t;
  }

  /** The pattern captures the identifier of any service ARN, whatever follows
      it after a character that cannot continue the identifier. */
  lemma MatchesServiceArn(region: string, account: string, id: string, rest: string)
    requires AllWordOrDash(region) && AllDigits(account) && AllWordChars(id) && id != ""
    requires rest != [] ==> !IsWordChar(rest[0])
    ensures MatchServiceArn(ServiceArn(region, account, id) + rest) == Some(Some(IdPrefix + id))
  {
    var tail := IdPrefix + id + rest;
    var afterAccount := ServiceMarker + tail;
    var afterRegion := account + ":" + afterAccount;
    var afterPrefix := region + ":" + afterRegion;
    assert ServiceArn(region, account, id) + rest == ArnPrefix + afterPrefix by {
      ServiceArnParts(region, account, id, rest);
    }
    assert MatchServiceArn(ArnPrefix + afterPrefix) == MatchRegion(afterPrefix) by {
      SplitAfter(ArnPrefix, afterPrefix);
    }
    assert MatchRegion(afterPrefix) == MatchAccount(afterRegion) by {
      MatchRegionOf(region, afterRegion);
    }
    assert MatchAccount(afterRegion) == MatchMarker(afterAccount) by {
      MatchAccountOf(account, afterAccount);
    }
    assert MatchMarker(afterAccount) == Some(MatchId(tail)) by {
      SplitAfter(ServiceMarker, tail);
    }
    assert MatchId(tail) == Some(IdPrefix + id) by {
      MatchIdOf(id, rest);
    }
  }

  /** A service ARN followed by more text, grouped stage by stage. */
  lemma ServiceArnParts(region: string, account: string, id: string, rest: string)
    ensures ServiceArn(region, account, id) + rest
         == ArnPrefix + (region + ":" + (account + ":" + (ServiceMarker + (IdPrefix + id + rest))))
  {
  }

  /** Whatever the group captures is `srv-` followed by identifier
      characters, up to a character that cannot continue it. */
  lemma CapturedId(t: string)
    requires MatchId(t).Some?
    ensures var id := MatchId(t).value;
      && |id| > |IdPrefix| && id[..|IdPrefix|] == IdPrefix && AllWordChars(id[|IdPrefix|..])
      && t[..|id|] == id && (|id| < |t| ==> !IsWordChar(t[|id|]))
  {
    var p := |IdPrefix|;
    var n := RunLength(t[p..], IsWordChar);
    RunLengthSpan(t[p..], IsWordChar);
    assert MatchId(t).value == t[..p + n];
    assert forall k | p <= k < p + n :: t[k] == t[p..][k - p];
    assert p + n < |t| ==> t[p + n] == t[p..][n];
  }

  lemma RegionParts(t: string) returns (region: string, u: string)
    requires MatchRegion(t).Some?
    ensures AllWordOrDash(region) && t == region + (":" + u) && MatchRegion(t) == MatchAccount(u)
  {
    var n := RunLength(t, IsWordOrDash);
    RunLengthSpan(t, IsWordOrDash);
    region, u := t[..n], t[n + 1..];
    assert t == t[..n] + [t[n]] + t[n + 1..];
  }

  lemma AccountParts(t: string) returns (account: string, u: string)
    requires MatchAccount(t).Some?
    ensures AllDigits(account) && t == account + (":" + u) && MatchAccount(t) == MatchMarker(u)
  {
    var n := RunLength(t, IsDigit);
    RunLengthSpan(t, IsDigit);
    account, u := t[..n], t[n + 1..];
    assert t == t[..n] + [t[n]] + t[n + 1..];
  }

  lemma MarkerParts(t: string) returns (u: string)
    requires MatchMarker(t).Some?
    ensures t == ServiceMarker + u && MatchMarker(t) == Some(MatchId(u))
  {
    u := t[|ServiceMarker|..];
    assert t == t[..|ServiceMarker|] + u;
  }

  /** Whatever the pattern captures is `srv-` followed by identifier
      characters, found right after the `service/` of a text that starts as a
      service ARN does, and not followed by another identifier character. */
  lemma CaptureIsServiceId(s: string)
    requires MatchServiceArn(s).Some? && MatchServiceArn(s).value.Some?
    ensures var id := MatchServiceArn(s).value.value;
      && |id| > |IdPrefix| && id[..|IdPrefix|] == IdPrefix && AllWordChars(id[|IdPrefix|..])
      && exists region, account, rest ::
           && AllWordOrDash(region) && AllDigits(account)
           && s == ArnPrefix + (region + (":" + (account + (":" + (ServiceMarker + (id + rest))))))
           && (rest != [] ==> !IsWordChar(rest[0]))
  {
    var t1 := s[|ArnPrefix|..];
    assert s == ArnPrefix + t1 by {
      assert s == s[..|ArnPrefix|] + t1;
    }
    var region, t2 := RegionParts(t1);
    var account, t3 := AccountParts(t2);
    var t4 := MarkerParts(t3);
    assert MatchServiceArn(s) == Some(MatchId(t4)) by {
      assert MatchServiceArn(s) == MatchRegion(t1);
    }
    CapturedId(t4);
    var id := MatchId(t4).value;
    var rest := t4[|id|..];
    assert t4 == id + rest by {
      assert t4 == t4[..|id|] + rest;
    }
    assert rest != [] ==> !IsWordChar(rest[0]);
    assert s == ArnPrefix + (region + (":" + (account + (":" + (ServiceMarker + (id + rest))))));
  }

  /** A text shaped as the start of a service ARN: prefix, word-or-dash
      region, digit account and `service/`, followed by `rest`. */
  ghost predicate ArnShaped(s: string)
  {
    exists region, account, rest ::
      && AllWordOrDash(region) && AllDigits(account)
      && s == ArnPrefix + (region + (":" + (account + (":" + (ServiceMarker + rest)))))
  }

  /** On a text shaped as a service ARN the pattern matches, and its group is
      whatever the optional `srv-` identifier takes of what follows `service/`. */
  lemma MatchOfShape(region: string, account: string, rest: string)
    requires AllWordOrDash(region) && AllDigits(account)
    ensures MatchServiceArn(ArnPrefix + (region + (":" + (account + (":" + (ServiceMarker + rest))))))
         == Some(MatchId(rest))
  {
    var afterAccount := ServiceMarker + rest;
    var afterRegion := account + (":" + afterAccount);
    var afterPrefix := region + (":" + afterRegion);
    assert MatchServiceArn(ArnPrefix + afterPrefix) == MatchRegion(afterPrefix) by {
      SplitAfter(ArnPrefix, afterPrefix);
    }
    assert MatchRegion(afterPrefix) == MatchAccount(afterRegion) by {
      MatchRegionOf(region, afterRegion);
      assert region + ":" + afterRegion == afterPrefix;
    }
    assert MatchAccount(afterRegion) == MatchMarker(afterAccount) by {
      MatchAccountOf(account, afterAccount);
      assert account + ":" + afterAccount == afterRegion;
    }
    assert MatchMarker(afterAccount) == Some(MatchId(rest)) by {
      SplitAfter(ServiceMarker, rest);
    }
  }

  /** The pattern matches exactly the texts that start as a service ARN does;
      on every other text the match is null. */
  lemma MatchesExactlyArnShaped(s: string)
    ensures MatchServiceArn(s).Some? <==> ArnShaped(s)
  {
    if MatchServiceArn(s).Some? {
      var t1 := s[|ArnPrefix|..];
      assert s == ArnPrefix + t1 by {
        assert s == s[..|ArnPrefix|] + t1;
      }
      assert MatchRegion(t1).Some?;
      var region, t2 := RegionParts(t1);
      var account, t3 := AccountParts(t2);
      var t4 := MarkerParts(t3);
      assert s == ArnPrefix + (region + (":" + (account + (":" + (ServiceMarker + t4)))));
    }
    if ArnShaped(s) {
      var region, account, rest :|
        && AllWordOrDash(region) && AllDigits(account)
        && s == ArnPrefix + (region + (":" + (account + (":" + (ServiceMarker + rest)))));
      MatchOfShape(region, account, rest);
    }
  }

  /** A text shaped as a service ARN whose `service/` is not followed by `srv-`
      and an identifier character matches without the group, so the
      identifier read from it is undefined. */
  lemma MatchesWithoutId(region: string, account: string, rest: string)
    requires AllWordOrDash(region) && AllDigits(account)
    requires !(|IdPrefix| < |rest| && rest[..|IdPrefix|] == IdPrefix && IsWordChar(rest[|IdPrefix|]))
    ensures MatchServiceArn(ArnPrefix + (region + (":" + (account + (":" + (ServiceMarker + rest))))))
         == Some(None)
  {
    MatchOfShape(region, account, rest);
  }

  /** The identifier reported for the ARN used in the test suite
      (`arn:aws:servicediscovery:us-east-1:1234567890:service/srv-abc12345`). */
  lemma ServiceIdExample()
    ensures MatchServiceArn(ServiceArn("us-east-1", "1234567890", "abc12345"))
         == Some(Some(IdPrefix + "abc12345"))
  {
    var region, account, id := "us-east-1", "1234567890", "abc12345";
    assert AllWordOrDash(region) && AllDigits(account) && AllWordChars(id);
    MatchesServiceArn(region, account, id, "");
    assert ServiceArn(region, account, id) + "" == ServiceArn(region, account, id);
  }

  const NoArnMessage: string := "Unable to determine ARN"

  /** The ARN of a found or created service: `response.Arn` when truthy,
      else `response.Service.Arn` when both are truthy; reading a property of
      an undefined or null response throws. */
  function ArnOf(response: Val): (r: Result<Val>)
    ensures r.Ok? ==> Truthy(r.value)
  {
    if Nullish(response) then Throw(TypeError)
    else if Truthy(Get(response, "Arn")) then Ok(Get(response, "Arn"))
    else if Truthy(Get(response, "Service")) && Truthy(Get(Get(response, "Service"), "Arn")) then
      Ok(Get(Get(response, "Service"), "Arn"))
    else Throw(PlainError(NoArnMessage))
  }

  /** The record's own ARN is preferred; the `Service` record's is used only
      when the record has none; with neither, the ARN cannot be determined. */
  lemma ArnOfPrefersRecord(response: Val)
    requires !Nullish(response)
    ensures Truthy(Get(response, "Arn")) ==> ArnOf(response) == Ok(Get(response, "Arn"))
    ensures !Truthy(Get(response, "Arn")) && Truthy(Get(response, "Service"))
            && Truthy(Get(Get(response, "Service"), "Arn"))
            ==> ArnOf(response) == Ok(Get(Get(response, "Service"), "Arn"))
    ensures ArnOf(response).Throw? <==>
      !Truthy(Get(response, "Arn"))
      && !(Truthy(Get(response, "Service")) && Truthy(Get(Get(response, "Service"), "Arn")))
    ensures ArnOf(response).Throw? ==> ArnOf(response).exception == PlainError(NoArnMessage)
  {
  }

  /** `arn.match(...)[1]`: only text has `match`, and a null match has no
      element to read, so both throw; otherwise the capture, undefined when
      there is no identifier. */
  function ServiceIdOf(arn: Val): (r: Result<Val>)
    ensures r.Ok? <==> arn.Str? && MatchServiceArn(arn.s).Some?
    ensures r.Throw? ==> r.exception == TypeError
    ensures r.Ok? ==> (r.value.Str? <==> MatchServiceArn(arn.s).value.Some?)
    ensures r.Ok? && r.value.Str? ==> r.value.s == MatchServiceArn(arn.s).value.value
    ensures r.Ok? && !r.value.Str? ==> r.value == Undefined
  {
    if !arn.Str? then Throw(TypeError)
    else
      match MatchServiceArn(arn.s)
      case None => Throw(TypeError)
      case Some(None) => Ok(Undefined)
      case Some(Some(id)) => Ok(Str(id))
  }

  /** The outputs `postToGithub(response)` posts, in order, or what it throws
      before posting any. */
  function PostedOutputs(response: Val): Result<seq<(string, Val)>>
  {
    match ArnOf(response)
    case Throw(e) => Throw(e)
    case Ok(arn) =>
      match ServiceIdOf(arn)
      case Throw(e) => Throw(e)
      case Ok(id) => Ok([("response", response), ("arn", arn), ("id", id)])
  }

  /** The outputs of the action run, in the order they were set. */
  class Outputs {
    var entries: seq<(string, Val)>

    constructor ()
      ensures entries == []
    {
      entries := [];
    }

    /** `core.setOutput(name, value)` */
    method SetOutput(name: string, value: Val)
      modifies this
      ensures entries == old(entries) + [(name, value)]
    {
      entries := entries + [(name, value)];
    }
  }

  /** `postToGithub(response)`: the ARN and the identifier are worked out
      first, and only then are the three outputs set. */
  method PostToGithub(out: Outputs, response: Val) returns (r: Result<()>)
    modifies out
    ensures PostedOutputs(response).Ok? ==> r.Ok? && out.entries == old(out.entries) + PostedOutputs(response).value
    ensures PostedOutputs(response).Throw? ==>
      r == Throw(PostedOutputs(response).exception) && out.entries == old(out.entries)
  {
    var arn := ArnOf(response);
    if arn.Throw? {
      return Throw(arn.exception);
    }
    var id := ServiceIdOf(arn.value);
    if id.Throw? {
      return Throw(id.exception);
    }
    out.SetOutput("response", response);
    out.SetOutput("arn", arn.value);
    out.SetOutput("id", id.value);
    return Ok(());
  }

  /** Either all three outputs are posted, the response, its ARN and its
      identifier in that order, or none is: the ARN is taken from the record
      or, failing that, from its `Service` record, and the identifier is the
      ARN's `srv-` capture. */
  lemma PostedOutputsReportService(response: Val)
    ensures PostedOutputs(response).Ok? ==>
      var outs := PostedOutputs(response).value;
      && |outs| == 3
      && outs[0] == ("response", response)
      && outs[1].0 == "arn" && outs[1].1 == ArnOf(response).value && outs[1].1.Str?
      && outs[2].0 == "id" && outs[2].1 == ServiceIdOf(outs[1].1).value
    ensures PostedOutputs(response).Throw? <==>
      ArnOf(response).Throw? || ServiceIdOf(ArnOf(response).value).Throw?
    ensures ArnOf(response) == Throw(PlainError(NoArnMessage)) ==>
      PostedOutputs(response) == Throw(PlainError(NoArnMessage))
  {
  }

  /** The two shapes the test suite reports, for any service ARN: a found
      service carrying its ARN, and a create result, which has no ARN of its
      own, carrying it in its `Service` record. Both post the record, the ARN
      and the `srv-` identifier. */
  lemma PostedOutputsOfServiceArn(fields: map<string, Val>, outer: map<string, Val>,
                                  region: string, account: string, id: string)
    requires AllWordOrDash(region) && AllDigits(account) && AllWordChars(id) && id != ""
    requires "Arn" !in outer
    ensures var arn := Str(ServiceArn(region, account, id));
      var found := Obj(fields["Arn" := arn]);
      var created := Obj(outer["Service" := Obj(fields["Arn" := arn])]);
      && PostedOutputs(found) == Ok([("response", found), ("arn", arn), ("id", Str(IdPrefix + id))])
      && PostedOutputs(created) == Ok([("response", created), ("arn", arn), ("id", Str(IdPrefix + id))])
  {
    var arn := Str(ServiceArn(region, account, id));
    var created := Obj(outer["Service" := Obj(fields["Arn" := arn])]);
    assert Get(created, "Arn") == Undefined;
    assert ArnOf(created) == Ok(arn);
    assert ServiceIdOf(arn) == Ok(Str(IdPrefix + id)) by {
      MatchesServiceArn(region, account, id, "");
      assert ServiceArn(region, account, id) + "" == ServiceArn(region, account, id);
    }
  }
}
