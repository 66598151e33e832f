/** Routing rules and the two text tests a rule puts to a request: the host pattern
    and the list of client networks.
  */
module RouteRules {
  import opened PathSegments

  datatype RouteTarget = RouteTarget(clusterName: string, pathRewrite: string)

  datatype RouteRule = RouteRule(
    hostPattern: string,
    pathPrefix: string,
    allowedClientCidrs: seq<string>,
    target: RouteTarget,
    priority: int)

  datatype FailReason = NoFailure | HostMismatch | PathMismatch | ClientIpDenied

  datatype RouteMatch = RouteMatch(matched: bool, target: RouteTarget, matchedRuleId: string, failReason: FailReason)

  const NO_MATCH := RouteMatch(false, RouteTarget("", ""), "", NoFailure)

  predicate EndsWith(text: string, suffix: string) {
    |suffix| <= |text| && text[|text| - |suffix|..] == suffix
  }

  /** `*` matches every host; `*.x` matches every host whose text ends in `x`, label boundary or not. */
  predicate HostMatches(host: string, pattern: string) {
    if pattern == "*" then true
    else if "*." <= pattern then EndsWith(host, pattern[2..])
    else host == pattern
  }

  /** What `*.x` would match at a label boundary: something, and then `.x`. */
  predicate HasLabelBefore(host: string, x: string) {
    EndsWith(host, "." + x)
  }

  /** The code and that differ on exactly the hosts that end in `x` with no dot before it. */
  lemma WildcardDiffersWhen(host: string, x: string)
    ensures HasLabelBefore(host, x) ==> HostMatches(host, "*." + x)
    ensures HostMatches(host, "*." + x) && !HasLabelBefore(host, x)
            <==> EndsWith(host, x) && (|host| == |x| || host[|host| - |x| - 1] != '.')
  {
    var pattern := "*." + x;
    assert pattern[2..] == x && pattern[1] == '.' && "*"[0] == '*' && pattern != "*";
    assert "*." <= pattern;
    if EndsWith(host, x) && |host| > |x| {
      var tail := host[|host| - |x| - 1..];
      assert tail[1..] == x && tail == [tail[0]] + tail[1..];
    }
    if HasLabelBefore(host, x) {
      var tail := host[|host| - |x| - 1..];
      assert tail[1..] == x == host[|host| - |x|..];
    }
  }

  /** So no wildcard is exact: each lets in a host that merely ends like it. */
  lemma WildcardIsNeverExact(x: string)
    ensures HostMatches("z" + x, "*." + x) && !HasLabelBefore("z" + x, x)
  {
    assert ("z" + x)[1..] == x;
    WildcardDiffersWhen("z" + x, x);
  }

  /** The text before the first `c`, or all of it. */
  function BeforeFirst(text: string, c: char): string {
    text[..FindFrom(text, c, 0)]
  }

  /** The text before the last `c`, or all of it. */
  function BeforeLast(text: string, c: char): string {
    if c !in text then text
    else if text[|text| - 1] == c then text[..|text| - 1]
    else BeforeLast(text[..|text| - 1], c)
  }

  /** The index of the second dot, or the length of the text if there is none. */
  function SecondDot(text: string): (pos: nat)
    ensures pos <= |text|
  {
    var first := FindFrom(text, '.', 0);
    if first == |text| then first else FindFrom(text, '.', first + 1)
  }

  function Take(text: string, n: nat): string {
    if n <= |text| then text[..n] else text
  }

  /** Whether a client address passes one entry of a rule's list; everything is compared as text. */
  predicate IpInCidr(ip: string, cidr: string) {
    var slash := FindFrom(cidr, '/', 0);
    if slash == |cidr| then ip == cidr
    else
      var prefix, length := cidr[..slash], cidr[slash + 1..];
      if length == "24" then BeforeLast(prefix, '.') == BeforeLast(ip, '.')
      else if length == "16" && SecondDot(prefix) < |prefix| then
        Take(ip, SecondDot(prefix)) == prefix[..SecondDot(prefix)]
      else if length == "8" then BeforeFirst(prefix, '.') == BeforeFirst(ip, '.')
      else if length == "0" then true
      else ip == prefix
  }

  /** The two-octet case, with the source's counting loop. */
  method CheckIpInCidr(ip: string, cidr: string) returns (inside: bool)
    ensures inside == IpInCidr(ip, cidr)
  {
    var slash := FindFrom(cidr, '/', 0);
    if slash == |cidr| {
      return ip == cidr;
    }
    var prefix, length := cidr[..slash], cidr[slash + 1..];
    if length == "24" {
      return BeforeLast(prefix, '.') == BeforeLast(ip, '.');
    }
    if length == "16" {
      var count := 0;
      var pos := |prefix|;
      var i := 0;
      while i < |prefix| && count < 2
        invariant i <= |prefix| && 0 <= count <= 1
        invariant pos == |prefix|
        invariant count == 0 ==> FindFrom(prefix, '.', 0) == FindFrom(prefix, '.', i)
        invariant count == 1 ==> FindFrom(prefix, '.', 0) < i && SecondDot(prefix) == FindFrom(prefix, '.', i)
      {
        if prefix[i] == '.' {
          count := count + 1;
          if count == 2 {
            pos := i;
            break;
          }
        }
        i := i + 1;
      }
      assert pos == SecondDot(prefix);
      if pos != |prefix| {
        return Take(ip, pos) == Take(prefix, pos);
      }
    }
    if length == "8" {
      return BeforeFirst(prefix, '.') == BeforeFirst(ip, '.');
    }
    if length == "0" {
      return true;
    }
    return ip == prefix;
  }

  /** A rule without a list lets every client pass. */
  predicate ClientAllowed(rule: RouteRule, ip: string) {
    rule.allowedClientCidrs == [] || exists c :: c in rule.allowedClientCidrs && IpInCidr(ip, c)
  }

  predicate Passes(rule: RouteRule, host: string, ip: string) {
    HostMatches(host, rule.hostPattern) && ClientAllowed(rule, ip)
  }

  /** Every entry lets some client in, so every rule does. */
  lemma SomeClientAllowed(rule: RouteRule)
    ensures exists ip :: ClientAllowed(rule, ip)
  {
    if rule.allowedClientCidrs == [] {
      assert ClientAllowed(rule, "");
    } else {
      var cidr := rule.allowedClientCidrs[0];
      var ip := BeforeFirst(cidr, '/');
      assert FindFrom(cidr, '/', 0) == |cidr| ==> ip == cidr;
      assert IpInCidr(ip, cidr);
      assert ClientAllowed(rule, ip);
    }
  }
}
