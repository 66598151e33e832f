/** What a list of rules means for a request, by linear scan: no index is involved. */
module RouteTable {
  import opened PathSegments
  import opened RouteRules

  function RuleSegments(rule: RouteRule): seq<string> {
    Segments(rule.pathPrefix)
  }

  /** The rule has at least one segment, and they begin the path. */
  predicate OnPath(rule: RouteRule, path: string) {
    RuleSegments(rule) != [] && RuleSegments(rule) <= Segments(path)
  }

  /** Rule `i` is a candidate: on a path without segments the rules without segments are, on
      any other path those rules on it that have the most segments. */
  ghost predicate IsCandidate(rules: seq<RouteRule>, path: string, i: nat) {
    && i < |rules|
    && if Segments(path) == [] then RuleSegments(rules[i]) == []
       else
         && OnPath(rules[i], path)
         && forall j | 0 <= j < |rules| && OnPath(rules[j], path) ::
              |RuleSegments(rules[j])| <= |RuleSegments(rules[i])|
  }

  /** All candidates of a path have the same segments. */
  lemma CandidatesShareSegments(rules: seq<RouteRule>, path: string, i: nat, j: nat)
    requires IsCandidate(rules, path, i) && IsCandidate(rules, path, j)
    ensures RuleSegments(rules[i]) == RuleSegments(rules[j])
  {
    if Segments(path) != [] {
      assert |RuleSegments(rules[i])| == |RuleSegments(rules[j])|;
      assert Segments(path)[..|RuleSegments(rules[i])|] == RuleSegments(rules[i]);
    }
  }

  ghost predicate IsPassing(rules: seq<RouteRule>, host: string, path: string, ip: string, i: nat) {
    IsCandidate(rules, path, i) && Passes(rules[i], host, ip)
  }

  function MatchOf(rule: RouteRule): RouteMatch {
    RouteMatch(true, rule.target, rule.hostPattern + rule.pathPrefix, NoFailure)
  }

  function ReasonOf(rule: RouteRule, host: string, ip: string): FailReason {
    if !HostMatches(host, rule.hostPattern) then HostMismatch
    else if !ClientAllowed(rule, ip) then ClientIpDenied
    else NoFailure
  }

  /** The answer to a request. Among equal priorities the source leaves the choice open, and so does this. */
  ghost predicate IsAnswer(rules: seq<RouteRule>, host: string, path: string, ip: string, r: RouteMatch) {
    if exists i: nat :: IsPassing(rules, host, path, ip, i) then
      exists i: nat ::
        && IsPassing(rules, host, path, ip, i)
        && r == MatchOf(rules[i])
        && forall j: nat | IsPassing(rules, host, path, ip, j) :: rules[i].priority <= rules[j].priority
    else if exists i: nat :: IsCandidate(rules, path, i) then
      exists i: nat ::
        && IsCandidate(rules, path, i)
        && r == NO_MATCH.(failReason := ReasonOf(rules[i], host, ip))
        && forall j: nat | IsCandidate(rules, path, j) :: rules[j].priority <= rules[i].priority
    else
      r == NO_MATCH.(failReason := PathMismatch)
  }

  /** What an answer tells its caller. */
  lemma AnswerMeaning(rules: seq<RouteRule>, host: string, path: string, ip: string, r: RouteMatch)
    requires IsAnswer(rules, host, path, ip, r)
    ensures r.matched <==> exists i: nat :: IsPassing(rules, host, path, ip, i)
    ensures r.failReason == NoFailure <==> r.matched
    ensures r.failReason == PathMismatch <==> forall i: nat :: !IsCandidate(rules, path, i)
    ensures r.failReason == ClientIpDenied ==>
              exists i: nat :: IsCandidate(rules, path, i) && HostMatches(host, rules[i].hostPattern)
    ensures r.failReason == HostMismatch ==>
              exists i: nat :: IsCandidate(rules, path, i) && !HostMatches(host, rules[i].hostPattern)
  {
    if !exists i: nat :: IsPassing(rules, host, path, ip, i) {
      if exists i: nat :: IsCandidate(rules, path, i) {
        var i: nat :| IsCandidate(rules, path, i) && r == NO_MATCH.(failReason := ReasonOf(rules[i], host, ip));
        assert !IsPassing(rules, host, path, ip, i);
      }
    }
  }

  /** With distinct priorities on the longest prefix the answer is the only one. */
  lemma AnswerIsUnique(rules: seq<RouteRule>, host: string, path: string, ip: string, one: RouteMatch, two: RouteMatch)
    requires IsAnswer(rules, host, path, ip, one) && IsAnswer(rules, host, path, ip, two)
    requires forall i: nat, j: nat | IsCandidate(rules, path, i) && IsCandidate(rules, path, j) && i != j ::
               rules[i].priority != rules[j].priority
    ensures one == two
  {
    if exists i: nat :: IsPassing(rules, host, path, ip, i) {
      var i: nat :| IsPassing(rules, host, path, ip, i) && one == MatchOf(rules[i])
                    && forall j: nat | IsPassing(rules, host, path, ip, j) :: rules[i].priority <= rules[j].priority;
      var j: nat :| IsPassing(rules, host, path, ip, j) && two == MatchOf(rules[j])
                    && forall k: nat | IsPassing(rules, host, path, ip, k) :: rules[j].priority <= rules[k].priority;
      assert rules[i].priority == rules[j].priority;
    }
  }

  // ----- the documented order: host first ------------------------------------------------------

  /** Host first, then the longest prefix among the rules whose host matches. */
  ghost predicate IsHostFirstCandidate(rules: seq<RouteRule>, host: string, path: string, i: nat) {
    && i < |rules|
    && HostMatches(host, rules[i].hostPattern)
    && if Segments(path) == [] then RuleSegments(rules[i]) == []
       else
         && OnPath(rules[i], path)
         && forall j | 0 <= j < |rules| && OnPath(rules[j], path) && HostMatches(host, rules[j].hostPattern) ::
              |RuleSegments(rules[j])| <= |RuleSegments(rules[i])|
  }

  ghost predicate IsHostFirstPassing(rules: seq<RouteRule>, host: string, path: string, ip: string, i: nat) {
    IsHostFirstCandidate(rules, host, path, i) && ClientAllowed(rules[i], ip)
  }

  ghost predicate SamePassing(rules: seq<RouteRule>, host: string, path: string, ip: string) {
    forall i: nat :: IsPassing(rules, host, path, ip, i) <==> IsHostFirstPassing(rules, host, path, ip, i)
  }

  /** Some rule at the longest prefix matches the host. */
  ghost predicate LongestPrefixServesHost(rules: seq<RouteRule>, host: string, path: string) {
    exists i: nat :: IsCandidate(rules, path, i) && HostMatches(host, rules[i].hostPattern)
  }

  /** Some rule matches the host and lies on the path, at whatever length. */
  ghost predicate HostHasRuleOnPath(rules: seq<RouteRule>, host: string, path: string) {
    exists i :: 0 <= i < |rules| && HostMatches(host, rules[i].hostPattern)
             && if Segments(path) == [] then RuleSegments(rules[i]) == [] else OnPath(rules[i], path)
  }

  lemma ServedHostAgrees(rules: seq<RouteRule>, host: string, path: string, ip: string)
    requires LongestPrefixServesHost(rules, host, path)
    ensures SamePassing(rules, host, path, ip)
  {
    var best: nat :| IsCandidate(rules, path, best) && HostMatches(host, rules[best].hostPattern);
    forall i: nat
      ensures IsPassing(rules, host, path, ip, i) <==> IsHostFirstPassing(rules, host, path, ip, i)
    {
      if IsHostFirstPassing(rules, host, path, ip, i) && Segments(path) != [] {
        assert |RuleSegments(rules[best])| <= |RuleSegments(rules[i])|;
      }
    }
  }

  /** Whenever the code finds a match, the documented order finds one, among the same rules. */
  lemma MatchImpliesHostFirstMatch(rules: seq<RouteRule>, host: string, path: string, ip: string, r: RouteMatch)
    requires IsAnswer(rules, host, path, ip, r) && r.matched
    ensures SamePassing(rules, host, path, ip)
    ensures exists i: nat :: IsHostFirstPassing(rules, host, path, ip, i)
  {
    AnswerMeaning(rules, host, path, ip, r);
    var i: nat :| IsPassing(rules, host, path, ip, i);
    ServedHostAgrees(rules, host, path, ip);
    assert IsHostFirstPassing(rules, host, path, ip, i);
  }

  /** The longest rule on the path among those whose host matches. */
  lemma {:induction false} HostFirstCandidateExists(rules: seq<RouteRule>, host: string, path: string, n: nat)
      returns (best: nat)
    requires n <= |rules| && Segments(path) != []
    requires exists i :: 0 <= i < n && HostMatches(host, rules[i].hostPattern) && OnPath(rules[i], path)
    ensures best < n && HostMatches(host, rules[best].hostPattern) && OnPath(rules[best], path)
    ensures forall j | 0 <= j < n && OnPath(rules[j], path) && HostMatches(host, rules[j].hostPattern) ::
              |RuleSegments(rules[j])| <= |RuleSegments(rules[best])|
  {
    var last := n - 1;
    var lastFits := HostMatches(host, rules[last].hostPattern) && OnPath(rules[last], path);
    if exists i :: 0 <= i < last && HostMatches(host, rules[i].hostPattern) && OnPath(rules[i], path) {
      best := HostFirstCandidateExists(rules, host, path, last);
      if lastFits && |RuleSegments(rules[last])| > |RuleSegments(rules[best])| {
        best := last;
      }
    } else {
      best := last;
    }
  }

  /** The two orders agree for every client exactly when the longest prefix holds a rule for the
      host, or the host has no rule on the path at all. */
  lemma OrdersAgreeWhen(rules: seq<RouteRule>, host: string, path: string)
    ensures (forall ip :: SamePassing(rules, host, path, ip))
            <==> LongestPrefixServesHost(rules, host, path) || !HostHasRuleOnPath(rules, host, path)
  {
    if LongestPrefixServesHost(rules, host, path) {
      forall ip ensures SamePassing(rules, host, path, ip) {
        ServedHostAgrees(rules, host, path, ip);
      }
    } else if Segments(path) != [] && HostHasRuleOnPath(rules, host, path) {
      var best := HostFirstCandidateExists(rules, host, path, |rules|);
      SomeClientAllowed(rules[best]);
      var ip :| ClientAllowed(rules[best], ip);
      assert IsHostFirstPassing(rules, host, path, ip, best);
      assert !IsPassing(rules, host, path, ip, best);
      assert !SamePassing(rules, host, path, ip);
    } else {
      forall i: nat | i < |rules| && Segments(path) == [] && RuleSegments(rules[i]) == []
        ensures IsCandidate(rules, path, i)
      {
      }
      assert forall ip :: SamePassing(rules, host, path, ip);
    }
  }

  /** A longer rule of another host hides a shorter rule of the request's host. */
  lemma LongerRuleOfOtherHostHides(target: RouteTarget)
    ensures var short := RouteRule("a.com", "/api", [], target, 0);
            var long := RouteRule("b.com", "/api/v2", [], target, 0);
            var rules := [short, long];
            && IsHostFirstPassing(rules, "a.com", "/api/v2", "10.0.0.1", 0)
            && (forall i: nat :: !IsPassing(rules, "a.com", "/api/v2", "10.0.0.1", i))
  {
    var short := RouteRule("a.com", "/api", [], target, 0);
    var long := RouteRule("b.com", "/api/v2", [], target, 0);
    var rules := [short, long];
    ExampleSegments();
    assert rules[0] == short && rules[1] == long;
    assert short.hostPattern[0] == 'a' && long.hostPattern[0] == 'b';
  }

  lemma ExampleSegments()
    ensures Segments("/api/v2") == ["api", "v2"] && Segments("/api") == ["api"]
  {
    assert Join([]) == "";
    assert ["api", "v2"][1..] == ["v2"] && ["api"][1..] == [] && ["v2"][1..] == [];
    assert Join(["v2"]) == "/v2";
    assert Join(["api", "v2"]) == "/" + "api" + "/v2" == "/api/v2";
    assert Join(["api"]) == "/api";
    SplitOfJoin(["api", "v2"]);
    SplitOfJoin(["api"]);
  }
}
