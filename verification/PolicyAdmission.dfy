/**
 Admission against runtime enforcement. IntersectMatches (internal/policy/intersect.go) decides
 at admission whether the policies matching a template grant what it requires; matchPolicyGrant
 and matchEgressGrant (internal/broker/matching.go) decide at runtime, one credential or one
 connection at a time. MergeTemplates (internal/policy/resolver.go) merges the requirements of a
 template with those of its base.

 path.Match is a parameter `glob`: whether a pattern is well formed and matches a name.
 strings.ToLower is modelled on ASCII.
 */
module PolicyAdmission {
  import opened Wrappers
  import opened ShellMerge

  type Glob = (string, string) -> bool

  /** The values of the int32 port fields. */
  type Port = x: int | -0x8000_0000 <= x < 0x8000_0000

  datatype CredentialGrant = CredentialGrant(name: string, provider: string)
  datatype EgressGrant = EgressGrant(host: string, ports: seq<Port>)
  datatype RunsGrant = RunsGrant(interact: bool, shell: Option<ShellCapability>)

  datatype Policy = Policy(name: string, appliesToTemplates: seq<string>,
                           credentials: seq<CredentialGrant>, egress: seq<EgressGrant>, runs: Option<RunsGrant>)

  datatype EgressRequirement = EgressRequirement(host: string, ports: seq<Port>)
  datatype Requires = Requires(credentials: seq<string>, egress: seq<EgressRequirement>)

  // ------------------------------------------------------ hosts and ports

  function LowerChar(c: char): char {
    if 'A' <= c <= 'Z' then c + ('a' - 'A') else c
  }

  function Lower(s: string): (r: string)
    ensures |r| == |s|
    ensures forall i :: 0 <= i < |s| ==> r[i] == LowerChar(s[i])
    ensures forall i :: 0 <= i < |s| ==>
              r[i] as int == if 'A' <= s[i] <= 'Z' then s[i] as int + 32 else s[i] as int
  {
    seq(|s|, i requires 0 <= i < |s| => LowerChar(s[i]))
  }

  predicate HasSuffix(s: string, suffix: string) {
    |suffix| <= |s| && s[|s| - |suffix|..] == suffix
  }

  predicate IsWildcard(host: string) {
    "*." <= host
  }

  /** EgressHostMatches. */
  predicate HostMatches(grant: string, required: string) {
    var g, r := Lower(grant), Lower(required);
    g == r || (IsWildcard(g) && HasSuffix(r, g[1..]) && |r| > |g[1..]|)
  }

  /**
   What a grant covers, ignoring case: a host only itself; a pattern "*.d" itself and whatever is
   a non-empty text followed by ".d", so subdomains at any depth but not d.
   */
  lemma HostMatchesIff(grant: string, host: string)
    ensures HostMatches(grant, host) <==>
            || Lower(grant) == Lower(host)
            || exists d, x :: Lower(grant) == "*." + d && x != "" && Lower(host) == x + "." + d
  {
    var g, h := Lower(grant), Lower(host);
    if IsWildcard(g) && HasSuffix(h, g[1..]) && |h| > |g[1..]| {
      var d, x := WildcardParts(g, h);
    }
    if d, x :| g == "*." + d && x != "" && h == x + "." + d {
      WildcardJoins(g, h, d, x);
    }
  }

  lemma WildcardParts(g: string, h: string) returns (d: string, x: string)
    requires IsWildcard(g) && HasSuffix(h, g[1..]) && |h| > |g[1..]|
    ensures g == "*." + d && x != "" && h == x + "." + d
  {
    d, x := g[2..], h[..|h| - |g| + 1];
    assert g[1..] == "." + d;
    assert h == x + g[1..];
    assert x + ("." + d) == x + "." + d;
  }

  lemma WildcardJoins(g: string, h: string, d: string, x: string)
    requires g == "*." + d && x != "" && h == x + "." + d
    ensures IsWildcard(g) && HasSuffix(h, g[1..]) && |h| > |g[1..]|
  {
    assert g[1..] == "." + d;
    assert x + "." + d == x + ("." + d);
  }

  lemma SuffixTransitive(a: string, b: string, c: string)
    requires HasSuffix(a, b) && HasSuffix(b, c)
    ensures HasSuffix(a, c)
  {
    assert a[|a| - |c|..] == a[|a| - |b|..][|b| - |c|..];
  }

  /** A pattern that covers a pattern covers every host the second one covers. */
  lemma HostMatchTransitive(grant: string, pattern: string, host: string)
    requires HostMatches(grant, pattern) && HostMatches(pattern, host)
    ensures HostMatches(grant, host)
  {
    var g, p, h := Lower(grant), Lower(pattern), Lower(host);
    if g != p && p != h {
      assert HasSuffix(p[1..], g[1..]) by {
        assert p[1..][|p| - |g|..] == p[|p| - |g[1..]|..];
      }
      SuffixTransitive(h, p[1..], g[1..]);
    }
  }

  /** portMatches: an empty list or a 0 entry grants any port. */
  predicate PortMatches(ports: seq<Port>, port: int) {
    ports == [] || 0 in ports || port in ports
  }

  /** A list covers every port if it is empty or holds 0, else the ports it lists. */
  lemma PortMatchesIff(ports: seq<Port>, port: int)
    ensures |ports| == 0 ==> PortMatches(ports, port)
    ensures (exists i :: 0 <= i < |ports| && ports[i] == 0) ==> PortMatches(ports, port)
    ensures |ports| > 0 && (forall i :: 0 <= i < |ports| ==> ports[i] != 0) ==>
              (PortMatches(ports, port) <==> exists i :: 0 <= i < |ports| && ports[i] == port)
  {
  }

  predicate Covers(g: EgressGrant, host: string, port: int) {
    HostMatches(g.host, host) && PortMatches(g.ports, port)
  }

  predicate PolicyCovers(bp: Policy, host: string, port: int) {
    exists g :: g in bp.egress && Covers(g, host, port)
  }

  ghost predicate Covered(policies: seq<Policy>, host: string, port: int) {
    exists bp :: bp in policies && PolicyCovers(bp, host, port)
  }

  // ------------------------------------------------------ selectors

  /** AppliesToTemplate: some selector is "*" or globs the template name. */
  predicate Applies(glob: Glob, selectors: seq<string>, template: string) {
    "*" in selectors || exists i :: 0 <= i < |selectors| && glob(selectors[i], template)
  }

  method AppliesToTemplate(glob: Glob, selectors: seq<string>, template: string) returns (b: bool)
    ensures b <==> exists i :: 0 <= i < |selectors| && (selectors[i] == "*" || glob(selectors[i], template))
    ensures b <==> Applies(glob, selectors, template)
  {
    for i := 0 to |selectors|
      invariant forall j :: 0 <= j < i ==> selectors[j] != "*" && !glob(selectors[j], template)
    {
      if selectors[i] == "*" || glob(selectors[i], template) {
        return true;
      }
    }
    return false;
  }

  /** Some selector is "*" or globs the template. */
  ghost predicate Selects(glob: Glob, bp: Policy, template: string) {
    exists i :: 0 <= i < |bp.appliesToTemplates|
                && (bp.appliesToTemplates[i] == "*" || glob(bp.appliesToTemplates[i], template))
  }

  /** The policies that apply to a template, in list order. */
  function Matching(glob: Glob, list: seq<Policy>, template: string): (m: seq<Policy>)
    ensures forall bp :: bp in m <==> bp in list && Applies(glob, bp.appliesToTemplates, template)
  {
    if list == [] then []
    else
      var rest := Matching(glob, list[..|list| - 1], template);
      var last := list[|list| - 1];
      assert list == list[..|list| - 1] + [last];
      if Applies(glob, last.appliesToTemplates, template) then rest + [last] else rest
  }

  method ListMatchingPolicies(glob: Glob, list: seq<Policy>, template: string) returns (matching: seq<Policy>)
    ensures matching == Matching(glob, list, template)
  {
    matching := [];
    for i := 0 to |list|
      invariant matching == Matching(glob, list[..i], template)
    {
      assert list[..i + 1][..i] == list[..i];
      var applies := AppliesToTemplate(glob, list[i].appliesToTemplates, template);
      if applies {
        matching := matching + [list[i]];
      }
    }
    assert list[..|list|] == list;
  }

  // ------------------------------------------------------ credentials

  /** Position (i, j) is the first grant of `name`: policy by policy, grant by grant. */
  ghost predicate FirstGrantAt(policies: seq<Policy>, name: string, i: nat, j: nat) {
    && i < |policies| && j < |policies[i].credentials|
    && policies[i].credentials[j].name == name
    && (forall k :: 0 <= k < j ==> policies[i].credentials[k].name != name)
    && (forall k :: 0 <= k < i ==> !Grants(policies[k], name))
  }

  predicate Grants(bp: Policy, name: string) {
    exists g :: g in bp.credentials && g.name == name
  }

  ghost predicate Granted(policies: seq<Policy>, name: string) {
    exists bp :: bp in policies && Grants(bp, name)
  }

  datatype CoveredCredential = CoveredCredential(policy: string, provider: string)

  /** `c` names the policy and provider of the first grant of `name`. */
  ghost predicate IsFirstGrant(policies: seq<Policy>, name: string, c: CoveredCredential) {
    exists i: nat, j: nat :: FirstGrantAt(policies, name, i, j)
      && c == CoveredCredential(policies[i].name, policies[i].credentials[j].provider)
  }

  lemma FirstGrantUnique(policies: seq<Policy>, name: string, c: CoveredCredential, c': CoveredCredential)
    requires IsFirstGrant(policies, name, c) && IsFirstGrant(policies, name, c')
    ensures c == c'
  {
    var i: nat, j: nat :| FirstGrantAt(policies, name, i, j)
      && c == CoveredCredential(policies[i].name, policies[i].credentials[j].provider);
    var k: nat, l: nat :| FirstGrantAt(policies, name, k, l)
      && c' == CoveredCredential(policies[k].name, policies[k].credentials[l].provider);
    assert policies[i].credentials[j] in policies[i].credentials;
    assert policies[k].credentials[l] in policies[k].credentials;
    assert i == k && j == l;
  }

  /** The first policy that applies wins over all later ones, and its first grant of the name over its others. */
  lemma FirstPolicyWins(glob: Glob, bp: Policy, rest: seq<Policy>, template: string, g: CredentialGrant,
                        c: CoveredCredential)
    requires Selects(glob, bp, template) && bp.credentials != [] && bp.credentials[0] == g
    requires IsFirstGrant(Matching(glob, [bp] + rest, template), g.name, c)
    ensures c == CoveredCredential(bp.name, g.provider)
  {
    var list := [bp] + rest;
    assert Applies(glob, bp.appliesToTemplates, template);
    MatchingPrefix(glob, list, template, 0);
    assert list[..0] == [] && Matching(glob, list, template)[0] == bp;
    assert FirstGrantAt(Matching(glob, list, template), g.name, 0, 0);
    FirstGrantUnique(Matching(glob, list, template), g.name, c, CoveredCredential(bp.name, g.provider));
  }

  /** The scan over one policy's credential grants. */
  method FindGrant(bp: Policy, name: string) returns (found: Option<nat>)
    ensures found.None? <==> !Grants(bp, name)
    ensures found.Some? ==> found.value < |bp.credentials| && bp.credentials[found.value].name == name
                            && forall k :: 0 <= k < found.value ==> bp.credentials[k].name != name
  {
    for j := 0 to |bp.credentials|
      invariant forall k :: 0 <= k < j ==> bp.credentials[k].name != name
    {
      if bp.credentials[j].name == name {
        assert bp.credentials[j] in bp.credentials;
        return Some(j);
      }
    }
    return None;
  }

  /** The credential search of IntersectMatches over the matching policies. */
  method CoverCredential(policies: seq<Policy>, name: string) returns (cov: Option<CoveredCredential>)
    ensures cov.None? <==> !Granted(policies, name)
    ensures cov.Some? ==> IsFirstGrant(policies, name, cov.value)
  {
    for i := 0 to |policies|
      invariant forall k :: 0 <= k < i ==> !Grants(policies[k], name)
    {
      var j := FindGrant(policies[i], name);
      if j.Some? {
        assert FirstGrantAt(policies, name, i, j.value);
        assert policies[i] in policies;
        return Some(CoveredCredential(policies[i].name, policies[i].credentials[j.value].provider));
      }
    }
    return None;
  }

  /** At runtime some policy of the namespace applies and grants the credential. */
  ghost predicate RuntimeCredential(glob: Glob, list: seq<Policy>, template: string, name: string) {
    exists i, j :: RuntimeGrantAt(glob, list, template, name, i, j)
  }

  predicate RuntimeGrantAt(glob: Glob, list: seq<Policy>, template: string, name: string, i: int, j: int) {
    && 0 <= i < |list| && Applies(glob, list[i].appliesToTemplates, template)
    && 0 <= j < |list[i].credentials| && list[i].credentials[j].name == name
  }

  /** Filtering the policies first makes no difference. */
  lemma RuntimeCredentialAgrees(glob: Glob, list: seq<Policy>, template: string, name: string)
    ensures RuntimeCredential(glob, list, template, name) <==> Granted(Matching(glob, list, template), name)
  {
    if i, j :| RuntimeGrantAt(glob, list, template, name, i, j) {
      assert list[i].credentials[j] in list[i].credentials && list[i] in list;
      assert Grants(list[i], name);
    }
    if bp :| bp in Matching(glob, list, template) && Grants(bp, name) {
      var g :| g in bp.credentials && g.name == name;
      var i :| 0 <= i < |list| && list[i] == bp;
      var j :| 0 <= j < |bp.credentials| && bp.credentials[j] == g;
      assert RuntimeGrantAt(glob, list, template, name, i, j);
    }
  }

  /** matchPolicyGrant: the runtime search over every policy of the namespace. */
  method MatchPolicyGrant(glob: Glob, list: seq<Policy>, template: string, name: string)
    returns (cov: Option<CoveredCredential>)
    ensures cov.None? <==> !Granted(Matching(glob, list, template), name)
    ensures cov.Some? <==> RuntimeCredential(glob, list, template, name)
    ensures cov.Some? ==> IsFirstGrant(Matching(glob, list, template), name, cov.value)
  {
    RuntimeCredentialAgrees(glob, list, template, name);
    for i := 0 to |list|
      invariant forall k :: 0 <= k < i && Applies(glob, list[k].appliesToTemplates, template) ==> !Grants(list[k], name)
    {
      var applies := AppliesToTemplate(glob, list[i].appliesToTemplates, template);
      if !applies {
        continue;
      }
      var j := FindGrant(list[i], name);
      if j.Some? {
        MatchingPrefix(glob, list, template, i);
        var m, n := Matching(glob, list, template), |Matching(glob, list[..i], template)|;
        assert m[n] == list[i] && forall k :: 0 <= k < n ==> m[k] in Matching(glob, list[..i], template);
        assert FirstGrantAt(m, name, n, j.value);
        assert m[n] in m;
        return Some(CoveredCredential(list[i].name, list[i].credentials[j.value].provider));
      }
    }
    return None;
  }

  /** The matching policies of a prefix come first; the next matching one follows them. */
  lemma {:induction false} MatchingPrefix(glob: Glob, list: seq<Policy>, template: string, i: nat)
    requires i < |list|
    ensures Matching(glob, list[..i], template) <= Matching(glob, list, template)
    ensures Applies(glob, list[i].appliesToTemplates, template) ==>
              |Matching(glob, list[..i], template)| < |Matching(glob, list, template)|
              && Matching(glob, list, template)[|Matching(glob, list[..i], template)|] == list[i]
    decreases |list|
  {
    var init := list[..|list| - 1];
    if i < |list| - 1 {
      MatchingPrefix(glob, init, template, i);
      assert init[..i] == list[..i];
    }
  }

  // ------------------------------------------------------ egress

  method GrantsCoverEgress(policies: seq<Policy>, host: string, port: Port) returns (b: bool)
    ensures b <==> Covered(policies, host, port)
  {
    for i := 0 to |policies|
      invariant forall k :: 0 <= k < i ==> !PolicyCovers(policies[k], host, port)
    {
      var grants := policies[i].egress;
      for j := 0 to |grants|
        invariant forall l :: 0 <= l < j ==> !Covers(grants[l], host, port)
      {
        if HostMatches(grants[j].host, host) && PortMatches(grants[j].ports, port) {
          assert grants[j] in policies[i].egress && Covers(grants[j], host, port);
          assert policies[i] in policies && PolicyCovers(policies[i], host, port);
          return true;
        }
      }
    }
    return false;
  }

  /** egressCovers: the runtime port is converted to int32 first. */
  predicate RuntimeCovers(g: EgressGrant, host: string, port: int) {
    HostMatches(g.host, host) && (g.ports == [] || exists p :: p in g.ports && (p == 0 || p == Int32(port)))
  }

  /** At runtime some policy of the namespace applies and has a grant that covers (host, port). */
  ghost predicate RuntimeEgress(glob: Glob, list: seq<Policy>, template: string, host: string, port: int) {
    exists i, j :: RuntimeCoverAt(glob, list, template, host, port, i, j)
  }

  predicate RuntimeCoverAt(glob: Glob, list: seq<Policy>, template: string, host: string, port: int, i: int, j: int) {
    && 0 <= i < |list| && Applies(glob, list[i].appliesToTemplates, template)
    && 0 <= j < |list[i].egress| && RuntimeCovers(list[i].egress[j], host, port)
  }

  /** The two matchers, and filtering the policies first, make no difference. */
  lemma RuntimeEgressAgrees(glob: Glob, list: seq<Policy>, template: string, host: string, port: int)
    ensures RuntimeEgress(glob, list, template, host, port) <==>
            Covered(Matching(glob, list, template), host, Int32(port))
  {
    if i, j :| RuntimeCoverAt(glob, list, template, host, port, i, j) {
      assert list[i].egress[j] in list[i].egress && list[i] in list;
      assert Covers(list[i].egress[j], host, Int32(port));
      assert PolicyCovers(list[i], host, Int32(port));
    }
    if bp :| bp in Matching(glob, list, template) && PolicyCovers(bp, host, Int32(port)) {
      var g :| g in bp.egress && Covers(g, host, Int32(port));
      var i :| 0 <= i < |list| && list[i] == bp;
      var j :| 0 <= j < |bp.egress| && bp.egress[j] == g;
      assert RuntimeCoverAt(glob, list, template, host, port, i, j);
    }
  }

  /** Position (i, j) is the first grant that covers (host, port). */
  ghost predicate FirstCoverAt(policies: seq<Policy>, host: string, port: int, i: nat, j: nat) {
    && i < |policies| && j < |policies[i].egress| && Covers(policies[i].egress[j], host, port)
    && (forall k :: 0 <= k < j ==> !Covers(policies[i].egress[k], host, port))
    && (forall k :: 0 <= k < i ==> !PolicyCovers(policies[k], host, port))
  }

  /** The scan over one policy's egress grants, by egressCovers. */
  method FindCover(bp: Policy, host: string, port: int) returns (found: Option<nat>)
    ensures found.None? <==> !PolicyCovers(bp, host, Int32(port))
    ensures found.Some? ==> found.value < |bp.egress| && Covers(bp.egress[found.value], host, Int32(port))
                            && forall k :: 0 <= k < found.value ==> !Covers(bp.egress[k], host, Int32(port))
  {
    for j := 0 to |bp.egress|
      invariant forall k :: 0 <= k < j ==> !Covers(bp.egress[k], host, Int32(port))
    {
      if RuntimeCovers(bp.egress[j], host, port) {
        assert bp.egress[j] in bp.egress;
        return Some(j);
      }
    }
    return None;
  }

  /** matchEgressGrant: the first grant of an applicable policy that covers (host, port). */
  method MatchEgressGrant(glob: Glob, list: seq<Policy>, template: string, host: string, port: int)
    returns (grant: Option<(string, EgressGrant)>)
    ensures grant.Some? <==> Covered(Matching(glob, list, template), host, Int32(port))
    ensures grant.Some? <==> RuntimeEgress(glob, list, template, host, port)
    ensures grant.Some? ==> var m := Matching(glob, list, template);
                            exists i: nat, j: nat :: FirstCoverAt(m, host, Int32(port), i, j)
                                                     && grant.value == (m[i].name, m[i].egress[j])
  {
    RuntimeEgressAgrees(glob, list, template, host, port);
    for i := 0 to |list|
      invariant forall k :: 0 <= k < i ==>
        !(Applies(glob, list[k].appliesToTemplates, template) && PolicyCovers(list[k], host, Int32(port)))
    {
      var applies := AppliesToTemplate(glob, list[i].appliesToTemplates, template);
      if !applies {
        continue;
      }
      var j := FindCover(list[i], host, port);
      if j.Some? {
        FirstCover(glob, list, template, host, Int32(port), i, j.value);
        return Some((list[i].name, list[i].egress[j.value]));
      }
    }
    return None;
  }

  /** The first covering grant of the whole list is the first one of the matching policies. */
  lemma FirstCover(glob: Glob, list: seq<Policy>, template: string, host: string, port: int, i: nat, j: nat)
    requires i < |list| && j < |list[i].egress| && Covers(list[i].egress[j], host, port)
    requires Applies(glob, list[i].appliesToTemplates, template)
    requires forall k :: 0 <= k < j ==> !Covers(list[i].egress[k], host, port)
    requires forall k :: 0 <= k < i ==>
               !(Applies(glob, list[k].appliesToTemplates, template) && PolicyCovers(list[k], host, port))
    ensures var m, n := Matching(glob, list, template), |Matching(glob, list[..i], template)|;
            FirstCoverAt(m, host, port, n, j) && m[n] == list[i] && Covered(m, host, port)
  {
    MatchingPrefix(glob, list, template, i);
    var m, n := Matching(glob, list, template), |Matching(glob, list[..i], template)|;
    assert m[n] == list[i] && forall k :: 0 <= k < n ==> m[k] in Matching(glob, list[..i], template);
    assert m[n].egress[j] in m[n].egress && m[n] in m && PolicyCovers(m[n], host, port);
  }

  // ------------------------------------------------------ admission

  /** The ports IntersectMatches checks for one egress requirement. */
  function CheckedPorts(e: EgressRequirement): seq<Port> {
    if e.ports == [] then [0] else e.ports
  }

  ghost predicate EgressAdmitted(policies: seq<Policy>, e: EgressRequirement) {
    forall p :: p in CheckedPorts(e) ==> Covered(policies, e.host, p)
  }

  ghost predicate Admits(policies: seq<Policy>, req: Requires) {
    && (forall c :: c in req.credentials ==> Granted(policies, c))
    && (forall e :: e in req.egress ==> EgressAdmitted(policies, e))
  }

  datatype IntersectionResult = IntersectionResult(
    admitted: bool, matchedPolicies: seq<string>, missingCredentials: seq<string>,
    missingEgress: seq<(string, Port)>, coveredCredentials: map<string, CoveredCredential>,
    runsInteract: bool, shell: Option<ShellCapability>)

  /** IntersectMatches. */
  method IntersectMatches(policies: seq<Policy>, req: Requires) returns (r: IntersectionResult)
    ensures r.admitted <==> Admits(policies, req)
    ensures r.admitted <==> r.missingCredentials == [] && r.missingEgress == []
    ensures forall c :: c in r.coveredCredentials <==> c in req.credentials && Granted(policies, c)
    ensures forall c :: c in r.coveredCredentials ==> IsFirstGrant(policies, c, r.coveredCredentials[c])
    ensures r.missingCredentials == Ungranted(policies, req.credentials)
    ensures r.missingEgress == Uncovered(policies, Asked(req.egress))
    ensures r.matchedPolicies == seq(|policies|, i requires 0 <= i < |policies| => policies[i].name)
    ensures r.runsInteract <==> exists bp :: bp in policies && bp.runs.Some? && bp.runs.value.interact
    ensures r.shell == MergeAll(Shells(policies))
  {
    var matched := seq(|policies|, i requires 0 <= i < |policies| => policies[i].name);
    var missing, covered := IntersectCredentials(policies, req.credentials);
    var missingEgress := IntersectEgress(policies, req.egress);
    var interact, shell := IntersectRuns(policies);
    r := IntersectionResult(missing == [] && missingEgress == [], matched, missing, missingEgress,
                            covered, interact, shell);
    AdmittedIffNothingMissing(policies, req);
  }

  /** Nothing is missing exactly when every requirement is granted. */
  lemma AdmittedIffNothingMissing(policies: seq<Policy>, req: Requires)
    ensures Admits(policies, req) <==>
            Ungranted(policies, req.credentials) == [] && Uncovered(policies, Asked(req.egress)) == []
  {
    var missing, missingEgress := Ungranted(policies, req.credentials), Uncovered(policies, Asked(req.egress));
    MissingEgressMeaning(policies, req.egress);
    if missing != [] {
      assert missing[0] in missing;
    }
    if missingEgress != [] {
      var (h, p) := missingEgress[0];
      assert (h, p) in missingEgress;
      assert AskedFor(req.egress, h, p);
    } else {
      forall e, p | e in req.egress && p in CheckedPorts(e) ensures Covered(policies, e.host, p) {
        assert AskedFor(req.egress, e.host, p);
        assert (e.host, p) !in missingEgress;
      }
    }
  }

  ghost predicate AskedFor(egress: seq<EgressRequirement>, host: string, port: Port) {
    exists e :: e in egress && e.host == host && port in CheckedPorts(e)
  }

  /** The required credentials without a grant, in order. */
  ghost function Ungranted(policies: seq<Policy>, credentials: seq<string>): (r: seq<string>)
    ensures forall c :: c in r <==> c in credentials && !Granted(policies, c)
  {
    if credentials == [] then []
    else
      var init, last := credentials[..|credentials| - 1], credentials[|credentials| - 1];
      assert credentials == init + [last];
      Ungranted(policies, init) + if Granted(policies, last) then [] else [last]
  }

  /** The (host, port) pairs that the egress requirements ask for, in order. */
  function Asked(egress: seq<EgressRequirement>): seq<(string, Port)> {
    if egress == [] then []
    else
      var last := egress[|egress| - 1];
      Asked(egress[..|egress| - 1]) + Pairs(last.host, CheckedPorts(last))
  }

  function Pairs(host: string, ports: seq<Port>): seq<(string, Port)> {
    seq(|ports|, i requires 0 <= i < |ports| => (host, ports[i]))
  }

  /** The pairs without an egress grant, in order. */
  ghost function Uncovered(policies: seq<Policy>, asked: seq<(string, Port)>): seq<(string, Port)> {
    if asked == [] then []
    else
      var last := asked[|asked| - 1];
      Uncovered(policies, asked[..|asked| - 1]) + if Covered(policies, last.0, last.1) then [] else [last]
  }

  lemma UncoveredNext(policies: seq<Policy>, asked: seq<(string, Port)>, host: string, ports: seq<Port>, j: nat)
    requires j < |ports|
    ensures Uncovered(policies, asked + Pairs(host, ports[..j + 1])) ==
            Uncovered(policies, asked + Pairs(host, ports[..j]))
            + if Covered(policies, host, ports[j]) then [] else [(host, ports[j])]
  {
    var next := asked + Pairs(host, ports[..j + 1]);
    assert next[..|next| - 1] == asked + Pairs(host, ports[..j]);
  }

  lemma {:induction false} AskedMeaning(egress: seq<EgressRequirement>)
    ensures forall h, p: Port :: (h, p) in Asked(egress) <==> AskedFor(egress, h, p)
    decreases |egress|
  {
    if egress != [] {
      var n := |egress| - 1;
      AskedMeaning(egress[..n]);
      AskedForNext(egress, n);
      assert egress[..n + 1] == egress;
      PairsMeaning(egress[n].host, CheckedPorts(egress[n]));
    }
  }

  lemma PairsMeaning(host: string, ports: seq<Port>)
    ensures forall h, p: Port :: (h, p) in Pairs(host, ports) <==> h == host && p in ports
  {
    forall p: Port | p in ports ensures (host, p) in Pairs(host, ports) {
      var i :| 0 <= i < |ports| && ports[i] == p;
      assert Pairs(host, ports)[i] == (host, p);
    }
  }

  lemma {:induction false} UncoveredMeaning(policies: seq<Policy>, asked: seq<(string, Port)>)
    ensures forall x :: x in Uncovered(policies, asked) <==> x in asked && !Covered(policies, x.0, x.1)
    decreases |asked|
  {
    if asked != [] {
      UncoveredMeaning(policies, asked[..|asked| - 1]);
      assert asked == asked[..|asked| - 1] + [asked[|asked| - 1]];
    }
  }

  /** The missing pairs are the ones asked for that no grant covers. */
  lemma MissingEgressMeaning(policies: seq<Policy>, egress: seq<EgressRequirement>)
    ensures forall h, p: Port :: (h, p) in Uncovered(policies, Asked(egress)) <==>
              !Covered(policies, h, p) && AskedFor(egress, h, p)
  {
    AskedMeaning(egress);
    UncoveredMeaning(policies, Asked(egress));
  }

  method IntersectCredentials(policies: seq<Policy>, credentials: seq<string>)
    returns (missing: seq<string>, covered: map<string, CoveredCredential>)
    ensures missing == Ungranted(policies, credentials)
    ensures forall c :: c in covered <==> c in credentials && Granted(policies, c)
    ensures forall c :: c in covered ==> IsFirstGrant(policies, c, covered[c])
  {
    missing, covered := [], map[];
    for i := 0 to |credentials|
      invariant missing == Ungranted(policies, credentials[..i])
      invariant forall c :: c in covered <==> c in credentials[..i] && Granted(policies, c)
      invariant forall c :: c in covered ==> IsFirstGrant(policies, c, covered[c])
    {
      assert credentials[..i + 1] == credentials[..i] + [credentials[i]];
      var cov := CoverCredential(policies, credentials[i]);
      if cov.None? {
        missing := missing + [credentials[i]];
        continue;
      }
      covered := covered[credentials[i] := cov.value];
    }
    assert credentials[..|credentials|] == credentials;
  }

  method IntersectEgress(policies: seq<Policy>, egress: seq<EgressRequirement>) returns (missing: seq<(string, Port)>)
    ensures missing == Uncovered(policies, Asked(egress))
  {
    missing := [];
    for i := 0 to |egress|
      invariant missing == Uncovered(policies, Asked(egress[..i]))
    {
      AskedNext(egress, i);
      missing := IntersectPorts(policies, egress[i].host, CheckedPorts(egress[i]), missing, Asked(egress[..i]));
    }
    assert egress[..|egress|] == egress;
  }

  lemma AskedNext(egress: seq<EgressRequirement>, i: nat)
    requires i < |egress|
    ensures Asked(egress[..i + 1]) == Asked(egress[..i]) + Pairs(egress[i].host, CheckedPorts(egress[i]))
  {
    assert egress[..i + 1][..i] == egress[..i];
  }

  /** The ports of one requirement. */
  method IntersectPorts(policies: seq<Policy>, host: string, ports: seq<Port>, missing: seq<(string, Port)>,
                        ghost asked: seq<(string, Port)>) returns (missing': seq<(string, Port)>)
    requires missing == Uncovered(policies, asked)
    ensures missing' == Uncovered(policies, asked + Pairs(host, ports))
  {
    missing' := missing;
    assert asked + Pairs(host, ports[..0]) == asked;
    for j := 0 to |ports|
      invariant missing' == Uncovered(policies, asked + Pairs(host, ports[..j]))
    {
      UncoveredNext(policies, asked, host, ports, j);
      var covered := GrantsCoverEgress(policies, host, ports[j]);
      if !covered {
        missing' := missing' + [(host, ports[j])];
      }
    }
    assert ports[..|ports|] == ports;
  }

  lemma AskedForNext(egress: seq<EgressRequirement>, i: nat)
    requires i < |egress|
    ensures forall h, p: Port :: AskedFor(egress[..i + 1], h, p) <==>
              AskedFor(egress[..i], h, p) || (h == egress[i].host && p in CheckedPorts(egress[i]))
  {
    assert egress[..i + 1] == egress[..i] + [egress[i]];
    forall h, p: Port
      ensures AskedFor(egress[..i + 1], h, p) <==>
                AskedFor(egress[..i], h, p) || (h == egress[i].host && p in CheckedPorts(egress[i]))
    {
      assert egress[i] in egress[..i + 1];
      if e :| e in egress[..i] && e.host == h && p in CheckedPorts(e) {
        assert e in egress[..i + 1];
      }
      if e :| e in egress[..i + 1] && e.host == h && p in CheckedPorts(e) {
        assert e in egress[..i] || e == egress[i];
      }
    }
  }

  /** The shell capabilities of the matching policies, in order. */
  function Shells(policies: seq<Policy>): seq<ShellCapability> {
    if policies == [] then []
    else
      var rest, last := Shells(policies[..|policies| - 1]), policies[|policies| - 1];
      if last.runs.Some? && last.runs.value.shell.Some? then rest + [last.runs.value.shell.value] else rest
  }

  /** The capabilities are exactly those of the policies that have one. */
  lemma {:induction false} ShellsMeaning(policies: seq<Policy>)
    ensures forall c :: c in Shells(policies) <==>
              exists bp :: bp in policies && bp.runs.Some? && bp.runs.value.shell == Some(c)
    decreases |policies|
  {
    if policies != [] {
      var init, last := policies[..|policies| - 1], policies[|policies| - 1];
      ShellsMeaning(init);
      assert policies == init + [last];
      assert forall bp :: bp in policies <==> bp in init || bp == last;
    }
  }

  /** What admission says about shells: none iff no policy has one, else the merged meaning over all of them. */
  lemma AdmittedShell(policies: seq<Policy>, phase: string)
    ensures var shell := MergeAll(Shells(policies));
            && (shell.None? <==> forall bp :: bp in policies && bp.runs.Some? ==> bp.runs.value.shell.None?)
            && (shell.Some? && phase in {"Running", "Idle", "Succeeded", "Failed", "Cancelled"} ==>
                  (PhaseAllowed(shell.value, phase) <==>
                   exists bp, c :: bp in policies && bp.runs.Some? && bp.runs.value.shell == Some(c)
                                   && PhaseAllowed(c, phase)))
  {
    var caps := Shells(policies);
    ShellsMeaning(policies);
    assert forall bp :: bp in policies && bp.runs.Some? && bp.runs.value.shell.Some? ==>
      bp.runs.value.shell.value in caps;
    if caps != [] {
      assert caps[0] in caps;
      MergedShellMeaning(caps, phase);
    }
  }

  method IntersectRuns(policies: seq<Policy>) returns (interact: bool, shell: Option<ShellCapability>)
    ensures interact <==> exists bp :: bp in policies && bp.runs.Some? && bp.runs.value.interact
    ensures shell == MergeAll(Shells(policies))
  {
    interact, shell := false, None;
    for i := 0 to |policies|
      invariant interact <==> exists bp :: bp in policies[..i] && bp.runs.Some? && bp.runs.value.interact
      invariant shell == MergeAll(Shells(policies[..i]))
    {
      var p := policies[i];
      assert policies[..i + 1] == policies[..i] + [p];
      assert p in policies[..i + 1];
      if p.runs.None? {
        continue;
      }
      if p.runs.value.interact {
        interact := true;
      }
      if p.runs.value.shell.Some? {
        var b := p.runs.value.shell.value;
        assert (Shells(policies[..i]) + [b])[..|Shells(policies[..i])|] == Shells(policies[..i]);
        var merged := MergeShell(shell, b);
        shell := Some(merged);
      }
    }
    assert policies[..|policies|] == policies;
  }

  // ------------------------------------------------------ main results

  /**
   Admission and runtime run on the same policies: every required credential of an admitted
   template resolves at runtime to the policy and provider recorded at admission, and an
   unrequired grant or a missing one never appears.
   */
  method AdmittedCredentialsResolve(glob: Glob, list: seq<Policy>, template: string, req: Requires, name: string)
    returns (r: IntersectionResult, runtime: Option<CoveredCredential>)
    requires name in req.credentials
    ensures runtime.Some? <==> name in r.coveredCredentials
    ensures runtime.Some? ==> runtime.value == r.coveredCredentials[name]
    ensures runtime.None? <==> name in r.missingCredentials
    ensures r.admitted ==> runtime.Some?
  {
    var matching := ListMatchingPolicies(glob, list, template);
    r := IntersectMatches(matching, req);
    runtime := MatchPolicyGrant(glob, list, template, name);
    if runtime.Some? {
      FirstGrantUnique(matching, name, runtime.value, r.coveredCredentials[name]);
    }
    assert r.missingCredentials == [] ==> name !in r.missingCredentials;
  }

  /** The ports a requirement asks for: any port if the list is empty or holds 0. */
  predicate Wanted(e: EgressRequirement, port: int) {
    e.ports == [] || 0 in e.ports || port in e.ports
  }

  lemma CoverageExtends(g: EgressGrant, pattern: string, host: string, required: Port, port: int)
    requires Covers(g, pattern, required) && HostMatches(pattern, host) && (required == 0 || required == Int32(port))
    ensures Covers(g, host, Int32(port))
  {
    HostMatchTransitive(g.host, pattern, host);
  }

  /** Soundness: what admission covers for a pattern, runtime grants for every host and port in it. */
  lemma AdmittedEgressIsGranted(policies: seq<Policy>, e: EgressRequirement, host: string, port: int)
    requires EgressAdmitted(policies, e) && HostMatches(e.host, host) && Wanted(e, port)
    ensures Covered(policies, host, Int32(port))
  {
    var required: Port := if e.ports == [] || 0 in e.ports then 0 else port;
    assert required in CheckedPorts(e) && Covered(policies, e.host, required);
    var bp :| bp in policies && PolicyCovers(bp, e.host, required);
    var g :| g in bp.egress && Covers(g, e.host, required);
    CoverageExtends(g, e.host, host, required, port);
    assert PolicyCovers(bp, host, Int32(port));
  }

  /** A label longer than the hosts of every grant. */
  function Label(n: nat): string {
    seq(n, _ => 'z')
  }

  /** A concrete host in `pattern` that only the grants covering the whole pattern can match. */
  function FreshHost(pattern: string, n: nat): string {
    if IsWildcard(Lower(pattern)) then Label(n) + pattern[1..] else pattern
  }

  lemma FreshHostInPattern(pattern: string, n: nat)
    requires n > 0
    ensures HostMatches(pattern, FreshHost(pattern, n))
    ensures !IsWildcard(Lower(FreshHost(pattern, n)))
  {
    var p, h := Lower(pattern), Lower(FreshHost(pattern, n));
    if IsWildcard(p) {
      assert h[n..] == p[1..] && h[0] == 'z';
    }
  }

  /** A grant that matches the fresh host covers the whole pattern. */
  lemma FreshHostIsTypical(grant: string, pattern: string, n: nat)
    requires n > |grant| && HostMatches(grant, FreshHost(pattern, n))
    ensures HostMatches(grant, pattern)
  {
    var g, p, h := Lower(grant), Lower(pattern), Lower(FreshHost(pattern, n));
    if IsWildcard(p) {
      assert h == Label(n) + p[1..];
      LabelHidesDot(Label(n), p, g[1..]);
    }
  }

  /** A suffix that starts with a dot cannot start inside a label of z's. */
  lemma LabelHidesDot(zs: string, p: string, suffix: string)
    requires p != "" && (forall i :: 0 <= i < |zs| ==> zs[i] == 'z')
    requires suffix != "" && suffix[0] == '.' && HasSuffix(zs + p[1..], suffix)
    ensures HasSuffix(p, suffix) && |p| > |suffix|
  {
    var h := zs + p[1..];
    var at := |h| - |suffix|;
    assert h[at] == '.';
    assert forall i :: 0 <= i < |zs| ==> h[i] == zs[i];
    assert at >= |zs|;
    assert p[at - |zs| + 1..] == h[at..];
  }

  /** A bound on the hosts of all grants. */
  function LongestHost(policies: seq<Policy>): (n: nat)
    ensures forall bp, g :: bp in policies && g in bp.egress ==> |g.host| <= n
  {
    if policies == [] then 0
    else
      assert policies == [policies[0]] + policies[1..];
      var a, b := LongestIn(policies[0].egress), LongestHost(policies[1..]);
      if a > b then a else b
  }

  function LongestIn(grants: seq<EgressGrant>): (n: nat)
    ensures forall g :: g in grants ==> |g.host| <= n
  {
    if grants == [] then 0
    else
      assert grants == [grants[0]] + grants[1..];
      var b := LongestIn(grants[1..]);
      if |grants[0].host| > b then |grants[0].host| else b
  }

  /** A port that no grant lists by number. */
  ghost predicate Unlisted(policies: seq<Policy>, port: Port) {
    port != 0 && forall bp, g :: bp in policies && g in bp.egress ==> port !in g.ports
  }

  lemma FreshCoverageIsTypical(policies: seq<Policy>, pattern: string, n: nat, port: Port)
    requires n > LongestHost(policies) && Covered(policies, FreshHost(pattern, n), port)
    ensures Covered(policies, pattern, port)
  {
    var bp :| bp in policies && PolicyCovers(bp, FreshHost(pattern, n), port);
    var g :| g in bp.egress && Covers(g, FreshHost(pattern, n), port);
    FreshHostIsTypical(g.host, pattern, n);
    assert Covers(g, pattern, port);
    assert PolicyCovers(bp, pattern, port);
  }

  /**
   A policy matters for a template exactly when one of its selectors is "*" or globs the name:
   then it is among the matching policies and runtime finds each of its grants, and otherwise it
   is not among them.
   */
  lemma SelectedPolicyIsFound(glob: Glob, list: seq<Policy>, template: string, i: nat)
    requires i < |list|
    ensures list[i] in Matching(glob, list, template) <==> Selects(glob, list[i], template)
    ensures Selects(glob, list[i], template) ==>
              && (forall j :: 0 <= j < |list[i].credentials| ==>
                    RuntimeCredential(glob, list, template, list[i].credentials[j].name))
              && (forall j, host, port: Port ::
                    0 <= j < |list[i].egress| && Covers(list[i].egress[j], host, port) ==>
                    RuntimeEgress(glob, list, template, host, port))
  {
    assert Selects(glob, list[i], template) <==> Applies(glob, list[i].appliesToTemplates, template);
    if Selects(glob, list[i], template) {
      forall j | 0 <= j < |list[i].credentials|
        ensures RuntimeCredential(glob, list, template, list[i].credentials[j].name)
      {
        assert RuntimeGrantAt(glob, list, template, list[i].credentials[j].name, i, j);
      }
      forall j, host, port: Port | 0 <= j < |list[i].egress| && Covers(list[i].egress[j], host, port)
        ensures RuntimeEgress(glob, list, template, host, port)
      {
        assert Int32(port) == port;
        assert RuntimeCovers(list[i].egress[j], host, port);
        assert RuntimeCoverAt(glob, list, template, host, port, i, j);
      }
    }
  }

  /** Completeness: a port not covered for a pattern is refused at runtime for a concrete host of it. */
  lemma RejectedEgressIsRefused(policies: seq<Policy>, pattern: string, port: Port) returns (host: string)
    requires !Covered(policies, pattern, port)
    ensures HostMatches(pattern, host) && !IsWildcard(Lower(host)) && !Covered(policies, host, Int32(port))
  {
    var n := LongestHost(policies) + 1;
    host := FreshHost(pattern, n);
    FreshHostInPattern(pattern, n);
    if Covered(policies, host, port) {
      FreshCoverageIsTypical(policies, pattern, n, port);
    }
  }

  /** The port numbers that grants list. */
  ghost function ListedPorts(policies: seq<Policy>): set<Port> {
    set bp, g, p | bp in policies && g in bp.egress && p in g.ports :: p
  }

  lemma {:induction false} PortRange(n: nat) returns (r: set<Port>)
    requires n < 0x8000_0000
    ensures |r| == n && forall p :: p in r <==> 1 <= p <= n
  {
    r := {};
    if n > 0 {
      r := PortRange(n - 1);
      r := r + {n};
    }
  }

  /** A larger set is not contained in a smaller one. */
  lemma {:induction false} Leftover(a: set<Port>, b: set<Port>) returns (x: Port)
    requires |b| < |a|
    ensures x in a && x !in b
    decreases |b|
  {
    if b == {} {
      x :| x in a;
    } else {
      var y :| y in b;
      assert |a| <= |a - {y}| + 1;
      x := Leftover(a - {y}, b - {y});
    }
  }

  /** Fewer than 65535 listed port numbers leave one of the real TCP ports free. */
  lemma FreePortExists(policies: seq<Policy>) returns (free: Port)
    requires |ListedPorts(policies)| < 65535
    ensures 1 <= free <= 65535 && Unlisted(policies, free)
  {
    var all := PortRange(65535);
    free := Leftover(all, ListedPorts(policies));
  }

  /** A port that a TCP connection can have. */
  predicate IsReal(port: int) {
    1 <= port <= 65535
  }

  /** At runtime every concrete host of the requirement is granted on every real port it asks for. */
  ghost predicate RuntimeGrantsAll(glob: Glob, list: seq<Policy>, template: string, e: EgressRequirement) {
    forall host, port: Port :: HostMatches(e.host, host) && !IsWildcard(Lower(host)) && IsReal(port) && Wanted(e, port)
      ==> RuntimeEgress(glob, list, template, host, port)
  }

  /** Runtime grants all of a requirement iff the pattern itself is covered on every real port it asks for. */
  lemma RuntimeGrantsAllIff(glob: Glob, list: seq<Policy>, template: string, e: EgressRequirement)
    ensures RuntimeGrantsAll(glob, list, template, e) <==>
            forall port: Port :: IsReal(port) && Wanted(e, port) ==>
              Covered(Matching(glob, list, template), e.host, port)
  {
    var policies := Matching(glob, list, template);
    forall host, port: Port | HostMatches(e.host, host) && Covered(policies, e.host, port)
      ensures RuntimeEgress(glob, list, template, host, port)
    {
      CoverageOfHost(policies, e.host, host, port);
      RuntimeEgressAgrees(glob, list, template, host, port);
    }
    forall port: Port | IsReal(port) && Wanted(e, port) && RuntimeGrantsAll(glob, list, template, e)
      ensures Covered(policies, e.host, port)
    {
      if !Covered(policies, e.host, port) {
        var host := RejectedEgressIsRefused(policies, e.host, port);
        RuntimeEgressAgrees(glob, list, template, host, port);
      }
    }
  }

  lemma CoverageOfHost(policies: seq<Policy>, pattern: string, host: string, port: Port)
    requires Covered(policies, pattern, port) && HostMatches(pattern, host)
    ensures Covered(policies, host, Int32(port))
  {
    var bp :| bp in policies && PolicyCovers(bp, pattern, port);
    var g :| g in bp.egress && Covers(g, pattern, port);
    CoverageExtends(g, pattern, host, port, port);
    assert PolicyCovers(bp, host, Int32(port));
  }

  predicate WantsAnyPort(e: EgressRequirement) {
    e.ports == [] || 0 in e.ports
  }

  /** A grant for the pattern lists the port by number. */
  ghost predicate ListedFor(policies: seq<Policy>, pattern: string, port: Port) {
    exists bp, g :: bp in policies && g in bp.egress && HostMatches(g.host, pattern) && port in g.ports
  }

  /** Every real port is listed by number for the pattern, and no grant for it is for any port. */
  ghost predicate ListsEveryPort(policies: seq<Policy>, pattern: string) {
    !Covered(policies, pattern, 0) && forall port: Port :: IsReal(port) ==> ListedFor(policies, pattern, port)
  }

  /** The requirement names an ungranted port that no connection has; admission webhooks refuse such ports. */
  ghost predicate WantsUnrealPort(policies: seq<Policy>, e: EgressRequirement) {
    exists port: Port :: port in e.ports && port != 0 && !IsReal(port) && !Covered(policies, e.host, port)
  }

  /** A grant for any port covers every port; other grants cover the ports they list. */
  lemma CoveredIff(policies: seq<Policy>, pattern: string, port: Port)
    requires port != 0
    ensures Covered(policies, pattern, port) <==> Covered(policies, pattern, 0) || ListedFor(policies, pattern, port)
  {
    if bp :| bp in policies && PolicyCovers(bp, pattern, port) {
      var g :| g in bp.egress && Covers(g, pattern, port);
      assert Covers(g, pattern, 0) || port in g.ports;
      assert Covers(g, pattern, 0) ==> PolicyCovers(bp, pattern, 0);
    }
    if bp :| bp in policies && PolicyCovers(bp, pattern, 0) {
      var g :| g in bp.egress && Covers(g, pattern, 0);
      assert Covers(g, pattern, port) && PolicyCovers(bp, pattern, port);
    }
    if bp, g :| bp in policies && g in bp.egress && HostMatches(g.host, pattern) && port in g.ports {
      assert Covers(g, pattern, port) && PolicyCovers(bp, pattern, port);
    }
  }

  /** What admission checks, by ports: any port, or each listed one. */
  lemma EgressAdmittedIff(policies: seq<Policy>, e: EgressRequirement)
    ensures EgressAdmitted(policies, e) <==>
            if WantsAnyPort(e) then Covered(policies, e.host, 0)
            else forall port: Port :: port in e.ports ==> Covered(policies, e.host, port)
  {
    if WantsAnyPort(e) {
      assert 0 in CheckedPorts(e);
      forall port: Port | port in CheckedPorts(e) && Covered(policies, e.host, 0)
        ensures Covered(policies, e.host, port) {
        if port != 0 {
          CoveredIff(policies, e.host, port);
        }
      }
    }
  }

  /**
   A requirement is admitted if and only if runtime grants all of it, except where admission asks
   for more than any connection can: an ungranted port beyond the real ones, or "any port" where
   the policies list every real port by number.
   */
  lemma EgressIsExact(glob: Glob, list: seq<Policy>, template: string, e: EgressRequirement)
    ensures var policies := Matching(glob, list, template);
            EgressAdmitted(policies, e) <==>
            && RuntimeGrantsAll(glob, list, template, e)
            && !WantsUnrealPort(policies, e)
            && !(WantsAnyPort(e) && ListsEveryPort(policies, e.host))
  {
    var policies := Matching(glob, list, template);
    RuntimeGrantsAllIff(glob, list, template, e);
    EgressAdmittedIff(policies, e);
    forall port: Port | port != 0
      ensures Covered(policies, e.host, port) <==> Covered(policies, e.host, 0) || ListedFor(policies, e.host, port)
    {
      CoveredIff(policies, e.host, port);
    }
  }

  /**
   Admission is exact for runtime: the policies matching a template admit its requirements if and
   only if the runtime searches over all policies find a grant for every required credential and
   for every concrete host and real port that the egress requirements describe, except for the
   two kinds of requirement that EgressIsExact names.
   */
  lemma AdmissionIsExact(glob: Glob, list: seq<Policy>, template: string, req: Requires)
    ensures var policies := Matching(glob, list, template);
            Admits(policies, req) <==>
            && (forall c :: c in req.credentials ==> RuntimeCredential(glob, list, template, c))
            && (forall e :: e in req.egress ==>
                  && RuntimeGrantsAll(glob, list, template, e)
                  && !WantsUnrealPort(policies, e)
                  && !(WantsAnyPort(e) && ListsEveryPort(policies, e.host)))
  {
    forall c ensures RuntimeCredential(glob, list, template, c) <==> Granted(Matching(glob, list, template), c) {
      RuntimeCredentialAgrees(glob, list, template, c);
    }
    forall e | e in req.egress
      ensures EgressAdmitted(Matching(glob, list, template), e) <==>
              && RuntimeGrantsAll(glob, list, template, e)
              && !WantsUnrealPort(Matching(glob, list, template), e)
              && !(WantsAnyPort(e) && ListsEveryPort(Matching(glob, list, template), e.host))
    {
      EgressIsExact(glob, list, template, e);
    }
  }

  /** Fewer than 65535 listed port numbers leave no such gap. */
  lemma FewPortsLeaveNoGap(policies: seq<Policy>, pattern: string)
    requires |ListedPorts(policies)| < 65535
    ensures !ListsEveryPort(policies, pattern)
  {
    var free := FreePortExists(policies);
    assert !ListedFor(policies, pattern, free);
  }

  function EveryPort(): (ports: seq<Port>)
    ensures forall port: Port :: IsReal(port) <==> port in ports
  {
    var ports := seq(65535, i requires 0 <= i < 65535 => (i + 1) as Port);
    assert forall port: Port :: IsReal(port) ==> ports[port - 1] == port;
    ports
  }

  /** The gap is real: all 65535 ports granted by number, "any port" rejected, every connection granted. */
  lemma EveryPortListedIsRejected(glob: Glob, template: string, host: string) returns (list: seq<Policy>)
    ensures var e := EgressRequirement(host, []);
            !EgressAdmitted(Matching(glob, list, template), e) && RuntimeGrantsAll(glob, list, template, e)
  {
    var g := EgressGrant(host, EveryPort());
    var bp := Policy("p", ["*"], [], [g], None);
    list := [bp];
    var e, policies := EgressRequirement(host, []), Matching(glob, list, template);
    assert "*" in bp.appliesToTemplates && Applies(glob, bp.appliesToTemplates, template) && bp in list;
    assert forall x :: x in policies <==> x == bp;
    assert forall x :: x in bp.egress <==> x == g;
    assert EgressRequirement(host, []).ports == [] && g.ports != [] by {
      assert (1 as Port) in g.ports;
    }
    assert !Covers(g, host, 0);
    forall port: Port | IsReal(port) ensures ListedFor(policies, host, port) {
      assert bp in policies && g in bp.egress && HostMatches(g.host, host) && port in g.ports;
    }
    assert ListsEveryPort(policies, host);
    GapIsGranted(glob, list, template, e);
    EgressAdmittedIff(policies, e);
  }

  lemma GapIsGranted(glob: Glob, list: seq<Policy>, template: string, e: EgressRequirement)
    requires ListsEveryPort(Matching(glob, list, template), e.host)
    ensures RuntimeGrantsAll(glob, list, template, e)
  {
    RuntimeGrantsAllIff(glob, list, template, e);
    forall port: Port | IsReal(port) ensures Covered(Matching(glob, list, template), e.host, port) {
      CoveredIff(Matching(glob, list, template), e.host, port);
    }
  }

  // ------------------------------------------------------ template inheritance

  /** The requirements part of MergeTemplates; a map iteration orders the merged credentials. */
  method MergeRequires(parent: Requires, child: Requires) returns (out: Requires)
    ensures forall c :: c in out.credentials <==> c in parent.credentials || c in child.credentials
    ensures child.credentials != [] ==> Distinct(out.credentials)
    ensures out.egress == parent.egress + child.egress
    ensures forall policies :: Admits(policies, out) <==> Admits(policies, parent) && Admits(policies, child)
  {
    out := parent;
    if |child.credentials| > 0 {
      var byName := (set c | c in out.credentials) + (set c | c in child.credentials);
      var merged := Enumerate(byName);
      out := out.(credentials := merged);
    }
    if |child.egress| > 0 {
      out := out.(egress := out.egress + child.egress);
    }
    assert out.egress == parent.egress + child.egress;
    forall policies ensures Admits(policies, out) <==> Admits(policies, parent) && Admits(policies, child) {
      MergedAdmission(policies, parent, child, out);
    }
  }

  /** A map iteration: every key once, in some order. */
  method Enumerate(names: set<string>) returns (s: seq<string>)
    ensures Distinct(s)
    ensures forall c :: c in s <==> c in names
  {
    s := [];
    var left := names;
    while left != {}
      invariant left <= names && Distinct(s)
      invariant forall c :: c in s <==> c in names && c !in left
      decreases left
    {
      var c :| c in left;
      s := s + [c];
      left := left - {c};
    }
  }

  /** A merged template is admitted exactly when both parts are. */
  lemma MergedAdmission(policies: seq<Policy>, parent: Requires, child: Requires, merged: Requires)
    requires forall c :: c in merged.credentials <==> c in parent.credentials || c in child.credentials
    requires merged.egress == parent.egress + child.egress
    ensures Admits(policies, merged) <==> Admits(policies, parent) && Admits(policies, child)
  {
    assert forall e :: e in merged.egress <==> e in parent.egress || e in child.egress;
  }
}
