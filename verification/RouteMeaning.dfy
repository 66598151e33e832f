/** What routing answers mean for a rule's own fields: its host pattern, its list of client
    networks, its target.
  */
module RouteMeaning {
  import opened PathSegments
  import opened RouteRules
  import opened RouteTable

  /** The rule restricts no clients, or one of its entries admits this one. */
  ghost predicate Admits(rule: RouteRule, ip: string) {
    rule.allowedClientCidrs == []
    || exists k :: 0 <= k < |rule.allowedClientCidrs| && IpInCidr(ip, rule.allowedClientCidrs[k])
  }

  lemma AdmitsIsAllowed(rule: RouteRule, ip: string)
    ensures ClientAllowed(rule, ip) <==> Admits(rule, ip)
  {
    if ClientAllowed(rule, ip) && rule.allowedClientCidrs != [] {
      var c :| c in rule.allowedClientCidrs && IpInCidr(ip, c);
      var k :| 0 <= k < |rule.allowedClientCidrs| && rule.allowedClientCidrs[k] == c;
      assert IpInCidr(ip, rule.allowedClientCidrs[k]);
    }
  }

  /** A rule for `*` lets every host pass: if it is a candidate that admits the client, the request is matched. */
  lemma AnyHostRuleMatches(rules: seq<RouteRule>, host: string, path: string, ip: string, r: RouteMatch, i: nat)
    requires IsAnswer(rules, host, path, ip, r) && IsCandidate(rules, path, i)
    requires rules[i].hostPattern == "*" && Admits(rules[i], ip)
    ensures r.matched
  {
    AdmitsIsAllowed(rules[i], ip);
    assert IsPassing(rules, host, path, ip, i);
  }

  /** A rule whose pattern is no wildcard passes for its own host text and for no other. */
  lemma OneHostRulePasses(rules: seq<RouteRule>, host: string, path: string, ip: string, i: nat)
    requires IsCandidate(rules, path, i)
    requires rules[i].hostPattern != "*" && !("*." <= rules[i].hostPattern)
    ensures IsPassing(rules, host, path, ip, i) <==> host == rules[i].hostPattern && Admits(rules[i], ip)
  {
    AdmitsIsAllowed(rules[i], ip);
  }

  /** And for that host it is an answer, if no candidate has a better priority. */
  lemma OneHostRuleAnswers(rules: seq<RouteRule>, path: string, ip: string, i: nat)
    requires IsCandidate(rules, path, i) && Admits(rules[i], ip)
    requires rules[i].hostPattern != "*" && !("*." <= rules[i].hostPattern)
    requires forall j: nat | IsCandidate(rules, path, j) :: rules[i].priority <= rules[j].priority
    ensures IsAnswer(rules, rules[i].hostPattern, path, ip,
                     RouteMatch(true, rules[i].target, rules[i].hostPattern + rules[i].pathPrefix, NoFailure))
  {
    OneHostRulePasses(rules, rules[i].hostPattern, path, ip, i);
  }

  /** A match is that of one passing rule, with its own target and name, and no passing rule has a
      better priority; a request that is not matched has neither target nor name. */
  lemma AnswerIsOneRule(rules: seq<RouteRule>, host: string, path: string, ip: string, r: RouteMatch)
    requires IsAnswer(rules, host, path, ip, r)
    ensures r.matched ==>
              exists i: nat ::
                && IsPassing(rules, host, path, ip, i)
                && HostMatches(host, rules[i].hostPattern) && Admits(rules[i], ip)
                && r.target == rules[i].target && r.matchedRuleId == rules[i].hostPattern + rules[i].pathPrefix
                && forall j: nat | IsPassing(rules, host, path, ip, j) :: rules[j].priority >= rules[i].priority
    ensures !r.matched ==> r.target == RouteTarget("", "") && r.matchedRuleId == ""
  {
    AnswerMeaning(rules, host, path, ip, r);
    if r.matched {
      var i: nat :|
        && IsPassing(rules, host, path, ip, i)
        && r == MatchOf(rules[i])
        && forall j: nat | IsPassing(rules, host, path, ip, j) :: rules[i].priority <= rules[j].priority;
      AdmitsIsAllowed(rules[i], ip);
    }
  }

  /** A client that no candidate admits is never matched. */
  lemma NobodyAdmits(rules: seq<RouteRule>, host: string, path: string, ip: string, r: RouteMatch)
    requires IsAnswer(rules, host, path, ip, r)
    requires forall i: nat | IsCandidate(rules, path, i) :: !Admits(rules[i], ip)
    ensures !r.matched
  {
    if r.matched {
      AnswerIsOneRule(rules, host, path, ip, r);
      assert false;
    }
  }

  /** A path that does not begin with a slash has no segments: only rules without segments apply. */
  lemma NoSlashNoSegments(path: string)
    requires path == "" || path[0] != '/'
    ensures Segments(path) == []
  {
  }

  // ----- the rules a gateway starts with -----------------------------------------------------------------

  const MOCK := RouteRule("*", "/proxy/mock", [], RouteTarget("mock-upstream", ""), 10)
  const ROOT := RouteRule("*", "/", [], RouteTarget("root-service", ""), 100)
  const DEFAULT_RULES := [MOCK, ROOT]

  lemma DefaultSegments()
    ensures RuleSegments(MOCK) == ["proxy", "mock"] && RuleSegments(ROOT) == []
  {
    assert Join([]) == "" && ["proxy", "mock"][1..] == ["mock"] && ["mock"][1..] == [];
    assert Join(["mock"]) == "/mock";
    assert Join(["proxy", "mock"]) == "/" + "proxy" + "/mock" == "/proxy/mock";
    SplitOfJoin(["proxy", "mock"]);
    assert "/"[1..] == "";
  }

  /** They serve every host and client, on `/` and at and below `/proxy/mock`, and nothing else. */
  lemma DefaultRulesServe(host: string, path: string, ip: string, r: RouteMatch)
    requires IsAnswer(DEFAULT_RULES, host, path, ip, r)
    ensures r.matched <==> Segments(path) == [] || ["proxy", "mock"] <= Segments(path)
    ensures Segments(path) == [] ==> r.target.clusterName == "root-service"
    ensures ["proxy", "mock"] <= Segments(path) ==> r.target.clusterName == "mock-upstream"
    ensures !r.matched ==> r.failReason == PathMismatch
  {
    DefaultSegments();
    AnswerIsOneRule(DEFAULT_RULES, host, path, ip, r);
    AnswerMeaning(DEFAULT_RULES, host, path, ip, r);
    assert DEFAULT_RULES[0] == MOCK && DEFAULT_RULES[1] == ROOT;
    forall i: nat
      ensures IsCandidate(DEFAULT_RULES, path, i) <==>
              if Segments(path) == [] then i == 1 else i == 0 && ["proxy", "mock"] <= Segments(path)
    {
    }
    if Segments(path) == [] {
      AnyHostRuleMatches(DEFAULT_RULES, host, path, ip, r, 1);
    } else if ["proxy", "mock"] <= Segments(path) {
      AnyHostRuleMatches(DEFAULT_RULES, host, path, ip, r, 0);
    }
  }
}
